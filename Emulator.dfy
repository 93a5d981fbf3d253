/**
 * The emulator driver of the test infrastructure
 * (support/testing/infra/emulator.py): it boots the emulator with an argument
 * vector built from the architecture, kernel and options, waits for prompts on
 * the emulator's terminal, logs in and runs shell commands.
 *
 * The terminal library is not modelled: every wait takes the library's answer
 * (`Expect`) as a parameter, and every write is recorded in `sent`. The
 * download collaborator is the function parameter `download`.
 */
module Emulator {
  import opened Wrappers
  import opened PyStr
  import opened Session
  import QemuCommand

  /** A Python list of strings owned by the caller; `Boot` appends to it in place. */
  class TokenList {
    var tokens: seq<string>

    constructor (tokens: seq<string>)
      ensures this.tokens == tokens
    {
      this.tokens := tokens;
    }

    method Append(token: string)
      modifies this
      ensures tokens == old(tokens) + [token]
    {
      tokens := tokens + [token];
    }
  }

  class Emulator {
    /** Whether `boot` has created the emulator process (`self.qemu` is not None). */
    var spawned: bool
    /** Everything read from the emulator so far; it only ever grows. */
    var log: string
    /** Everything written to the emulator's input, one entry per write. */
    var sent: seq<string>
    /** Whether the current emulator process has been told to terminate. */
    var terminated: bool
    /** Where prebuilt kernels are downloaded to. */
    const downloadDir: string

    constructor (downloadDir: string)
      ensures !spawned && !terminated && log == "" && sent == []
      ensures this.downloadDir == downloadDir
    {
      this.downloadDir := downloadDir;
      spawned := false;
      terminated := false;
      log := "";
      sent := [];
    }

    /** Builds the emulator's argument vector and starts it. `kernelCmdline` is
        the caller's list (null for None); a builtin ARM kernel appends its
        console token to it. Returns the vector and the artefacts downloaded. */
    method Boot(arch: string, kernel: Option<string>, kernelCmdline: TokenList?,
                options: seq<string>, download: (string, string) -> string)
      returns (argv: seq<string>, fetched: seq<string>)
      modifies this, kernelCmdline
      ensures spawned && !terminated && log == old(log) && sent == old(sent)
      ensures var cmdline := if kernelCmdline == null then [] else old(kernelCmdline.tokens);
              && argv == QemuCommand.Command(arch, kernel, cmdline, options, downloadDir, download)
              && fetched == QemuCommand.Fetched(arch, kernel)
              && (kernelCmdline != null ==>
                    kernelCmdline.tokens == QemuCommand.FinalCmdline(arch, kernel, cmdline))
    {
      var qemuArch := if arch == "armv7" || arch == "armv5" then "arm" else arch;
      var cmd := ["qemu-system-" + qemuArch, "-serial", "stdio", "-display", "none"];
      if options != [] {
        cmd := cmd + options;
      }
      assert cmd == QemuCommand.Prefix(arch, options);
      var cmdline: TokenList;
      if kernelCmdline == null {
        cmdline := new TokenList([]);
      } else {
        cmdline := kernelCmdline;
      }
      var kernelFlags;
      kernelFlags, fetched := KernelSection(arch, kernel, cmdline, download);
      cmd := cmd + kernelFlags;
      if cmdline.tokens != [] {
        cmd := cmd + ["-append", Join(" ", cmdline.tokens)];
      }
      argv := cmd;
      spawned := true;
      terminated := false;
    }

    /** The kernel flags of the vector: a builtin ARM kernel is downloaded
        (with its device tree on armv7), gets its machine flag and appends its
        console token to `cmdline`; any other truthy kernel is passed as is. */
    method KernelSection(arch: string, kernel: Option<string>, cmdline: TokenList,
                         download: (string, string) -> string)
      returns (flags: seq<string>, fetched: seq<string>)
      modifies cmdline
      ensures flags == QemuCommand.KernelArgs(arch, kernel, downloadDir, download)
      ensures fetched == QemuCommand.Fetched(arch, kernel)
      ensures cmdline.tokens == QemuCommand.FinalCmdline(arch, kernel, old(cmdline.tokens))
    {
      flags, fetched := [], [];
      if Truthy(kernel) {
        var path := kernel.value;
        if path == "builtin" {
          if arch == "armv7" || arch == "armv5" {
            cmdline.Append("console=ttyAMA0");
          }
          if arch == "armv7" {
            path := download(downloadDir, "kernel-vexpress");
            var dtb := download(downloadDir, "vexpress-v2p-ca9.dtb");
            fetched := ["kernel-vexpress", "vexpress-v2p-ca9.dtb"];
            flags := flags + ["-dtb", dtb];
            flags := flags + ["-M", "vexpress-a9"];
          } else if arch == "armv5" {
            path := download(downloadDir, "kernel-versatile");
            fetched := ["kernel-versatile"];
            flags := flags + ["-M", "versatilepb"];
          }
        }
        flags := flags + ["-kernel", path];
      }
    }

    /** Waits for `waitstr`; `reply` is the terminal library's answer. The raw
        text goes to the log, the text with "\r\r" collapsed is returned. */
    method ReadUntil(waitstr: string, reply: Expect) returns (data: string)
      requires spawned && Answers(reply, waitstr)
      modifies this
      ensures log == old(log) + Captured(reply)
      ensures old(log) <= log
      ensures reply.matched ==> Contains(log, waitstr)
      ensures data == CollapseDoubleCr(Captured(reply))
      ensures spawned == old(spawned) && terminated == old(terminated) && sent == old(sent)
    {
      var text := reply.before;
      if reply.matched {
        text := text + reply.after;
        ContainsSuffix(log + reply.before, waitstr);
        assert log + text == log + reply.before + waitstr;
      } else {
        assert text == reply.before + "";
      }
      log := log + text;
      data := CollapseDoubleCr(text);
    }

    method Write(text: string)
      requires spawned
      modifies this
      ensures sent == old(sent) + [text]
      ensures spawned == old(spawned) && terminated == old(terminated) && log == old(log)
    {
      sent := sent + [text];
    }

    /** Runs `cmd` in the target's shell: its output lines, then its exit
        status read back with `echo $?`. */
    method Run(cmd: string, outputReply: Expect, statusReply: Expect)
      returns (r: Result<RunResult, PyError>)
      requires spawned && Answers(outputReply, ShellPrompt) && Answers(statusReply, ShellPrompt)
      modifies this
      ensures log == old(log) + Captured(outputReply) + Captured(statusReply)
      ensures sent == old(sent) + [cmd + "\n", "echo $?\n"]
      ensures spawned == old(spawned) && terminated == old(terminated)
      ensures r == match ExitCode(CollapseDoubleCr(Captured(statusReply)))
                   case Failure(e) => Failure(e)
                   case Success(code) =>
                     Success(RunResult(CommandOutput(CollapseDoubleCr(Captured(outputReply))), code))
    {
      ghost var sent0 := sent;
      Write(cmd + "\n");
      var output := ReadUntil(ShellPrompt, outputReply);
      var lines := CommandOutput(output);
      Write("echo $?\n");
      assert sent == sent0 + [cmd + "\n", "echo $?\n"] by {
        assert sent == (sent0 + [cmd + "\n"]) + ["echo $?\n"];
      }
      var status := ReadUntil(ShellPrompt, statusReply);
      match ExitCode(status) {
        case Failure(e) =>
          r := Failure(e);
        case Success(code) =>
          r := Success(RunResult(lines, code));
      }
    }

    /** Types the user name, then waits for the password prompt and types the
        password when the password is truthy. */
    method EnterCredentials(password: Option<string>, passwordReply: Expect)
      requires spawned && Answers(passwordReply, PasswordPrompt)
      modifies this
      ensures sent == old(sent) + Credentials(password)
      ensures log == old(log) + (if Truthy(password) then Captured(passwordReply) else "")
      ensures spawned == old(spawned) && terminated == old(terminated)
    {
      Write("root\n");
      if Truthy(password) {
        var passwordText := ReadUntil(PasswordPrompt, passwordReply);
        Write(password.value + "\n");
      } else {
        assert log == old(log) + "";
      }
    }

    /** Waits for the login prompt, logs in as root (with `password` when it is
        truthy), waits for the shell prompt and silences the kernel console. */
    method Login(password: Option<string>, loginReply: Expect, passwordReply: Expect,
                 shellReply: Expect, dmesgReply: Expect, dmesgStatusReply: Expect)
      returns (r: Result<(), PyError>)
      requires spawned
      requires Answers(loginReply, LoginPrompt) && Answers(passwordReply, PasswordPrompt)
      requires Answers(shellReply, ShellPrompt)
      requires Answers(dmesgReply, ShellPrompt) && Answers(dmesgStatusReply, ShellPrompt)
      modifies this
      ensures spawned == old(spawned) && terminated == old(terminated)
      ensures var afterLogin := old(log) + Captured(loginReply);
              var asked := Truthy(password);
              var afterShell := afterLogin + (if asked then Captured(passwordReply) else "")
                                + Captured(shellReply);
              var credentials := Credentials(password);
              if !Contains(afterLogin, LoginPrompt) then
                r == Failure(NotBooting) && log == afterLogin && sent == old(sent)
              else if !Contains(afterShell, ShellPrompt) then
                r == Failure(CannotLogin) && log == afterShell && sent == old(sent) + credentials
              else
                && log == afterShell + Captured(dmesgReply) + Captured(dmesgStatusReply)
                && sent == old(sent) + credentials + ["dmesg -n 1\n", "echo $?\n"]
                && r == match ExitCode(CollapseDoubleCr(Captured(dmesgStatusReply)))
                        case Failure(e) => Failure(e)
                        case Success(_) => Success(())
      ensures loginReply.matched || Contains(old(log), LoginPrompt) ==> r != Failure(NotBooting)
      ensures loginReply.matched && shellReply.matched ==> r.Success? || r.error !in {NotBooting, CannotLogin}
    {
      assert "dmesg -n 1" + "\n" == "dmesg -n 1\n";
      ghost var log0, sent0 := log, sent;
      var loginText := ReadUntil(LoginPrompt, loginReply);
      ghost var afterLogin := log;
      if Contains(log0, LoginPrompt) {
        ContainsExtended(log0, Captured(loginReply), LoginPrompt);
      }
      if !Contains(log, LoginPrompt) {
        return Failure(NotBooting);
      }
      EnterCredentials(password, passwordReply);
      ghost var afterPassword := log;
      var shellText := ReadUntil(ShellPrompt, shellReply);
      assert log == afterPassword + Captured(shellReply);
      if !Contains(log, ShellPrompt) {
        return Failure(CannotLogin);
      }
      ghost var beforeRun := sent;
      var result := Run("dmesg -n 1", dmesgReply, dmesgStatusReply);
      assert sent == beforeRun + ["dmesg -n 1\n", "echo $?\n"];
      assert sent == sent0 + Credentials(password) + ["dmesg -n 1\n", "echo $?\n"];
      match result {
        case Failure(e) =>
          r := Failure(e);
        case Success(_) =>
          r := Success(());
      }
    }

    /** Terminates the emulator process, if one was ever started. */
    method Stop()
      modifies this
      ensures terminated == (old(terminated) || old(spawned))
      ensures spawned == old(spawned) && log == old(log) && sent == old(sent)
    {
      if !spawned {
        return;
      }
      terminated := true;
    }
  }
}
