/**
 * The argument vector `Emulator.boot` hands to the emulator binary
 * (support/testing/infra/emulator.py, lines 30-66), written as a declarative
 * table: for each architecture that has a prebuilt ("builtin") kernel, the
 * artefacts to download, the machine model and the console token.
 *
 * The method `Emulator.Boot` builds the same vector step by step, with the
 * inline conditionals of the source, and is proved equal to `Command`; the
 * lemmas below restate the per-architecture behaviour with literal strings,
 * so that a mistake in the table would show.
 */
module QemuCommand {
  import opened Wrappers
  import opened PyStr

  /** The kernel value that asks for a prebuilt image. */
  const Builtin := "builtin"

  const ArmConsole := "console=ttyAMA0"

  /** What a prebuilt kernel needs on one architecture. */
  datatype BuiltinKernel = BuiltinKernel(
    kernelArtefact: string,
    dtbArtefact: Option<string>,
    machine: string,
    console: string)

  /** The architectures with a prebuilt kernel. */
  function BuiltinFor(arch: string): Option<BuiltinKernel> {
    if arch == "armv7" then
      Some(BuiltinKernel("kernel-vexpress", Some("vexpress-v2p-ca9.dtb"), "vexpress-a9", ArmConsole))
    else if arch == "armv5" then
      Some(BuiltinKernel("kernel-versatile", None, "versatilepb", ArmConsole))
    else
      None
  }

  predicate UsesBuiltin(arch: string, kernel: Option<string>) {
    kernel == Some(Builtin) && BuiltinFor(arch).Some?
  }

  /** The two ARM flavours share one emulator binary. */
  function QemuArch(arch: string): string {
    if BuiltinFor(arch).Some? then "arm" else arch
  }

  /** Binary, the serial-on-stdio and no-display flags, then the caller's options. */
  function Prefix(arch: string, options: seq<string>): seq<string> {
    ["qemu-system-" + QemuArch(arch), "-serial", "stdio", "-display", "none"] + options
  }

  /** Artefact names passed to the download collaborator, in call order. */
  function Fetched(arch: string, kernel: Option<string>): seq<string> {
    if UsesBuiltin(arch, kernel) then
      var b := BuiltinFor(arch).value;
      [b.kernelArtefact] + (if b.dtbArtefact.Some? then [b.dtbArtefact.value] else [])
    else
      []
  }

  /** The kernel command line once the console token has been added. */
  function FinalCmdline(arch: string, kernel: Option<string>, cmdline: seq<string>): seq<string> {
    if UsesBuiltin(arch, kernel) then cmdline + [BuiltinFor(arch).value.console] else cmdline
  }

  /** Device tree, machine and kernel flags. */
  function KernelArgs(arch: string, kernel: Option<string>, dir: string,
                      download: (string, string) -> string): seq<string>
  {
    if !Truthy(kernel) then []
    else if UsesBuiltin(arch, kernel) then
      var b := BuiltinFor(arch).value;
      (if b.dtbArtefact.Some? then ["-dtb", download(dir, b.dtbArtefact.value)] else [])
      + ["-M", b.machine, "-kernel", download(dir, b.kernelArtefact)]
    else
      ["-kernel", kernel.value]
  }

  function AppendArgs(cmdline: seq<string>): seq<string> {
    if cmdline == [] then [] else ["-append", Join(" ", cmdline)]
  }

  /** The whole argument vector, binary first. */
  function Command(arch: string, kernel: Option<string>, cmdline: seq<string>,
                   options: seq<string>, dir: string,
                   download: (string, string) -> string): seq<string>
  {
    Prefix(arch, options) + KernelArgs(arch, kernel, dir, download)
    + AppendArgs(FinalCmdline(arch, kernel, cmdline))
  }

  /** The binary is `qemu-system-arm` for both ARM flavours and
      `qemu-system-<arch>` otherwise; it is followed by exactly the serial and
      display flags and then the caller's options in their order. `-append`
      closes the vector exactly when the final kernel command line is not
      empty, with the tokens joined by single spaces. */
  lemma CommandLayout(arch: string, kernel: Option<string>, cmdline: seq<string>,
                      options: seq<string>, dir: string,
                      download: (string, string) -> string)
    ensures var argv := Command(arch, kernel, cmdline, options, dir, download);
            && |argv| >= 5 + |options|
            && argv[0] == (if arch == "armv7" || arch == "armv5" then "qemu-system-arm" else "qemu-system-" + arch)
            && argv[1..5] == ["-serial", "stdio", "-display", "none"]
            && argv[5..5 + |options|] == options
    ensures var argv := Command(arch, kernel, cmdline, options, dir, download);
            var rest := Prefix(arch, options) + KernelArgs(arch, kernel, dir, download);
            var final := FinalCmdline(arch, kernel, cmdline);
            if final == [] then argv == rest
            else argv[..|argv| - 2] == rest && argv[|argv| - 2..] == ["-append", Join(" ", final)]
  {
    var head := Prefix(arch, options);
    var argv := Command(arch, kernel, cmdline, options, dir, download);
    assert argv[..|head|] == head;
  }

  /** armv7 with a builtin kernel: kernel and device tree are downloaded, the
      device tree and machine flags come right before the kernel flag, and the
      console token ends the kernel command line. */
  lemma ArmV7Builtin(cmdline: seq<string>, options: seq<string>, dir: string,
                     download: (string, string) -> string)
    ensures Fetched("armv7", Some("builtin")) == ["kernel-vexpress", "vexpress-v2p-ca9.dtb"]
    ensures FinalCmdline("armv7", Some("builtin"), cmdline) == cmdline + ["console=ttyAMA0"]
    ensures Command("armv7", Some("builtin"), cmdline, options, dir, download)
         == ["qemu-system-arm", "-serial", "stdio", "-display", "none"] + options
            + ["-dtb", download(dir, "vexpress-v2p-ca9.dtb"), "-M", "vexpress-a9",
               "-kernel", download(dir, "kernel-vexpress"),
               "-append", Join(" ", cmdline + ["console=ttyAMA0"])]
  {
    assert "qemu-system-" + "arm" == "qemu-system-arm";
    assert ArmConsole == "console=ttyAMA0";
  }

  /** armv5 with a builtin kernel: only the kernel is downloaded and there is
      no device tree flag. */
  lemma ArmV5Builtin(cmdline: seq<string>, options: seq<string>, dir: string,
                     download: (string, string) -> string)
    ensures Fetched("armv5", Some("builtin")) == ["kernel-versatile"]
    ensures FinalCmdline("armv5", Some("builtin"), cmdline) == cmdline + ["console=ttyAMA0"]
    ensures Command("armv5", Some("builtin"), cmdline, options, dir, download)
         == ["qemu-system-arm", "-serial", "stdio", "-display", "none"] + options
            + ["-M", "versatilepb", "-kernel", download(dir, "kernel-versatile"),
               "-append", Join(" ", cmdline + ["console=ttyAMA0"])]
  {
    assert "qemu-system-" + "arm" == "qemu-system-arm";
    assert ArmConsole == "console=ttyAMA0";
  }

  /** A kernel path, or "builtin" on an architecture without a prebuilt image,
      is passed verbatim; nothing is downloaded and the command line is kept. */
  lemma VerbatimKernel(arch: string, kernel: string, cmdline: seq<string>,
                       dir: string, download: (string, string) -> string)
    requires kernel != ""
    requires kernel == "builtin" ==> arch != "armv7" && arch != "armv5"
    ensures KernelArgs(arch, Some(kernel), dir, download) == ["-kernel", kernel]
    ensures Fetched(arch, Some(kernel)) == []
    ensures FinalCmdline(arch, Some(kernel), cmdline) == cmdline
  {
  }

  /** The comment above `boot` counts i386 among the architectures with a
      prebuilt kernel, but `boot` has no i386 branch: there, "builtin" reaches
      the emulator as a literal kernel path and nothing is downloaded. */
  lemma I386BuiltinIsLiteral(cmdline: seq<string>, options: seq<string>, dir: string,
                             download: (string, string) -> string)
    ensures Fetched("i386", Some("builtin")) == []
    ensures Command("i386", Some("builtin"), cmdline, options, dir, download)
         == ["qemu-system-i386", "-serial", "stdio", "-display", "none"] + options
            + ["-kernel", "builtin"]
            + (if cmdline == [] then [] else ["-append", Join(" ", cmdline)])
  {
    assert "qemu-system-" + "i386" == "qemu-system-i386";
  }

  /** Without a kernel (None or "") there are no kernel, device tree or
      machine flags, no download and no console token. */
  lemma NoKernel(arch: string, kernel: Option<string>, cmdline: seq<string>,
                 options: seq<string>, dir: string, download: (string, string) -> string)
    requires kernel == None || kernel == Some("")
    ensures Fetched(arch, kernel) == []
    ensures FinalCmdline(arch, kernel, cmdline) == cmdline
    ensures Command(arch, kernel, cmdline, options, dir, download)
         == Prefix(arch, options) + (if cmdline == [] then [] else ["-append", Join(" ", cmdline)])
  {
  }

  /** The `-append` value keeps every token: a kernel that splits its command
      line on spaces gets back exactly the tokens, when none holds a space. */
  lemma AppendValueSplitsBack(arch: string, kernel: Option<string>, cmdline: seq<string>,
                              options: seq<string>, dir: string,
                              download: (string, string) -> string)
    requires forall k :: 0 <= k < |cmdline| ==> ' ' !in cmdline[k]
    requires FinalCmdline(arch, kernel, cmdline) != []
    ensures var argv := Command(arch, kernel, cmdline, options, dir, download);
            Split(argv[|argv| - 1], ' ') == FinalCmdline(arch, kernel, cmdline)
  {
    var final := FinalCmdline(arch, kernel, cmdline);
    assert forall k :: 0 <= k < |final| ==> ' ' !in final[k] by {
      assert ' ' !in ArmConsole;
    }
    SplitJoin(' ', final);
    CommandLayout(arch, kernel, cmdline, options, dir, download);
  }
}
