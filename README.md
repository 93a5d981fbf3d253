# Emulator driver of the Buildroot runtime test infrastructure

Buildroot's runtime tests start a freshly built system in QEMU and talk to it
over the emulated serial console. The `Emulator` class in
`support/testing/infra/emulator.py` does the talking:

- `boot` turns an architecture name, an optional kernel, an optional kernel
  command line and extra options into a QEMU argument vector and starts QEMU.
  The special kernel `"builtin"` downloads a prebuilt ARM kernel and adds the
  matching machine and console settings.
- `__read_until` waits for a prompt. It appends everything read to the log and
  returns that text with each `"\r\r"` turned into `"\r"`.
- `login` logs in as root and fails when the accumulated log never showed the
  login prompt or the shell prompt.
- `run` types a command and cuts its output lines out of the captured screen.
  It then types `echo $?` and reads the exit code from the second line.
- `stop` terminates QEMU if it was ever started.

The model has five modules:

- `Wrappers` holds `Option` and `Result`.
- `PyStr` holds the Python byte-string operations the driver uses, with their
  lemmas. These are `in`, `replace`, `strip`, `splitlines`, `join` and `int`.
- `QemuCommand` holds the argument vector as a declarative per-architecture
  table, with lemmas that restate each branch using literal strings.
- `Session` describes what `run` does to a capture. Its lemmas take a screen as
  the console delivers it: lines ended by `"\r\r\n"`, starting with the echoed
  command and ending with the prompt. They show that `run` gives back exactly
  the printed lines and the printed status.
- `Emulator` holds the class `Emulator`. Its methods `Boot`, `ReadUntil`,
  `Login`, `Run` and `Stop` follow the source step by step. `TokenList` is the
  caller's `kernel_cmdline` list, which `boot` appends to in place.

The terminal library is a parameter of the model. Every wait receives its
answer as an `Expect(matched, before, after)` value. `Answers(e, p)` states two
things about a wait for the literal text `p`. The wait stops at the first
occurrence, so `before` never contains `p`. A successful wait matched `p`
itself; this holds because the driver's prompts contain no regular-expression
metacharacters. Every write is recorded in the field `sent`. The download
helper is the function parameter `download(dir, name)`.

On a timeout, `__read_until` keeps only the text read before the timeout and
adds nothing to it (emulator.py:74-78). `Session.TimedOutStatusStillParses`
shows that a status capture that timed out after the status line still yields
the status. `Session.TimedOutRunLosesLastLine` shows that when the prompt of a
command never arrives, the command's last output line is silently dropped as if
it were the prompt.

The output round trip needs one more condition. The wait for `"# "` stops at
the first occurrence, so the echoed command and the printed lines must not hold
`"# "` themselves. `Session.RunOutputRoundTrip` and
`Session.TimedOutRunLosesLastLine` require this. `Session.NoPromptBeforeMatch`
derives it from `Answers` for every matched reply, and `Session.RunReplyOutput`
states the round trip for such replies.

The comment above `boot` (emulator.py:22) says that armv5, armv7 and i386
builtin kernels are available. The code has no i386 branch: for i386 the
string `"builtin"` is passed to QEMU as the kernel path, nothing is downloaded
and no console token is added. The model follows the code, and
`QemuCommand.I386BuiltinIsLiteral` states the resulting vector.

## Model

| member | source | states |
|---|---|---|
| Emulator.Emulator.constructor | support/testing/infra/emulator.py:8-12 | A new driver has no process, an empty log, nothing written, and keeps the download directory. |
| Emulator.Emulator.Boot | support/testing/infra/emulator.py:30-71 | The vector built step by step equals `QemuCommand.Command` of the inputs. The downloaded artefacts are `QemuCommand.Fetched`. A caller's list ends up holding `QemuCommand.FinalCmdline`, the console token appended in place. The process is started while the log and the writes are unchanged. |
| Emulator.Emulator.KernelSection | support/testing/infra/emulator.py:46-63 | The kernel flags are `QemuCommand.KernelArgs` and the downloads `QemuCommand.Fetched`. The caller's list ends up as `QemuCommand.FinalCmdline` of its old contents. |
| Emulator.TokenList.Append | support/testing/infra/emulator.py:49 | `list.append`: the token is added at the end and nothing else changes. |
| Emulator.Emulator.ReadUntil | support/testing/infra/emulator.py:73-81 | The log grows by exactly `before`, plus `after` only on a match, so the old log is a prefix of the new one. After a match the log contains the awaited text. The result is the same raw text with `"\r\r"` collapsed. |
| Emulator.Emulator.Write | support/testing/infra/emulator.py:83-84 | One write is recorded at the end of `sent`; the log is untouched. |
| Emulator.Emulator.Login | support/testing/infra/emulator.py:88-101 | Without the login prompt in the log it fails with "System does not boot" and writes nothing. Otherwise it writes `root`, then the password only when the password is truthy. Without `# ` in the log it then fails with "Cannot login". Otherwise it runs `dmesg -n 1`, and that run's errors escape. A matched login prompt rules out the first error; matched login and shell prompts rule out both. |
| Emulator.Emulator.EnterCredentials | support/testing/infra/emulator.py:94-97 | It writes `Session.Credentials`: `root`, then the password only when it is truthy. The log grows by the password-prompt capture only when the password is truthy. |
| Emulator.Emulator.Run | support/testing/infra/emulator.py:105-116 | It writes the command and `echo $?` in that order, and the log grows by both captures. The result is the framed output of the first capture with the exit code of the second, or that exit code's `IndexError`/`ValueError`. |
| Emulator.Emulator.Stop | support/testing/infra/emulator.py:118-121 | It terminates exactly when a process was started; when none was, nothing changes. Repeating it changes nothing more. |
| QemuCommand.CommandLayout | support/testing/infra/emulator.py:31-66 | The binary is `qemu-system-arm` for armv7/armv5 and `qemu-system-<arch>` otherwise. Exactly `-serial stdio -display none` follows, then the options in order. `-append` with the space-joined tokens is the last pair exactly when the final command line is non-empty. |
| QemuCommand.ArmV7Builtin | support/testing/infra/emulator.py:46-66 | A builtin armv7 kernel downloads `kernel-vexpress` and then `vexpress-v2p-ca9.dtb`. It emits `-dtb <dtb> -M vexpress-a9` right before `-kernel <kernel>` and ends the command line with `console=ttyAMA0`. |
| QemuCommand.ArmV5Builtin | support/testing/infra/emulator.py:46-66 | A builtin armv5 kernel downloads only `kernel-versatile`. It emits `-M versatilepb -kernel <kernel>` with no `-dtb` and ends the command line with `console=ttyAMA0`. |
| QemuCommand.VerbatimKernel | support/testing/infra/emulator.py:46-63 | A kernel path, or `"builtin"` on another architecture, is passed verbatim after `-kernel`. Nothing is downloaded and no console token is added. |
| QemuCommand.NoKernel | support/testing/infra/emulator.py:43-66 | A missing or empty kernel adds no kernel, device tree or machine flag, downloads nothing and adds no console token. |
| QemuCommand.AppendValueSplitsBack | support/testing/infra/emulator.py:65-66 | When no token holds a space, splitting the `-append` value on spaces gives back exactly the final command line. |
| QemuCommand.I386BuiltinIsLiteral | support/testing/infra/emulator.py:46-63 | A builtin i386 kernel downloads nothing. The vector is the binary, the serial and display flags, the options, `-kernel builtin` and the `-append` pair only for a non-empty command line. |
| PyStr.ContainsSuffix | support/testing/infra/emulator.py:77-78 | The awaited text appended to the log is found in the log. |
| PyStr.ContainsExtended | support/testing/infra/emulator.py:90 | A prompt already in the log stays there after more text is appended. |
| PyStr.CollapseDoubleCr | support/testing/infra/emulator.py:81 | The replacement never makes a text longer. |
| PyStr.CollapseFixedPoints | support/testing/infra/emulator.py:81 | The replacement changes a text exactly when it contains `"\r\r"`. |
| PyStr.CollapseShortens | support/testing/infra/emulator.py:81 | A text holding `"\r\r"` gets strictly shorter. |
| PyStr.CollapseChangesOnlyPairs | support/testing/infra/emulator.py:81 | A text that changes must hold `"\r\r"`. |
| PyStr.CollapseConcat | support/testing/infra/emulator.py:81 | When the first part does not end in `'\r'`, the replacement splits over the concatenation. |
| PyStr.StripLeft | support/testing/infra/emulator.py:108 | Only whitespace is dropped, the result starts with a non-blank or is empty, and it is never longer. |
| PyStr.StripRight | support/testing/infra/emulator.py:108 | Only whitespace is dropped, the result ends with a non-blank or is empty, and it is never longer. |
| PyStr.StripLeftIsSuffix | support/testing/infra/emulator.py:108 | `lstrip` keeps a suffix of the text. |
| PyStr.StripRightIsPrefix | support/testing/infra/emulator.py:108 | `rstrip` keeps a prefix of the text. |
| PyStr.Strip | support/testing/infra/emulator.py:108 | Both ends of the result are non-blank, and the result is empty exactly when the text is blank. A text with non-blank ends is unchanged. |
| PyStr.StripIsMiddle | support/testing/infra/emulator.py:108 | `strip` gives exactly one contiguous slice of the text. Everything before the slice and everything after it is whitespace. |
| PyStr.StripRightAppend | support/testing/infra/emulator.py:108 | Trailing whitespace is stripped only from the last non-blank part. |
| PyStr.SplitLines | support/testing/infra/emulator.py:108 | No line holds a line break, and there are no lines exactly when the text is empty. |
| PyStr.SplitLinesJoin | support/testing/infra/emulator.py:108 | Lines without breaks joined by `\n`, `\r` or `\r\n` split back into the same lines when the last one is non-empty. |
| PyStr.SplitJoin | support/testing/infra/emulator.py:66 | Parts without the separator, joined with it, split back into the same parts. |
| PyStr.JoinPrefix | support/testing/infra/emulator.py:66 | The first part always opens the joined text. |
| PyStr.JoinSnoc | support/testing/infra/emulator.py:66 | Joining one more part adds the separator and that part at the end. |
| PyStr.JoinStart | support/testing/infra/emulator.py:66 | A join whose last part is non-empty is non-empty, and it starts with the first part's first character, or with the separator when the first part is empty. |
| PyStr.ParseShowInt | support/testing/infra/emulator.py:114 | `int()` reads back every integer from its decimal form. |
| PyStr.ParseIntNeedsDigit | support/testing/infra/emulator.py:114 | `int()` rejects a text without a digit. |
| Session.CollapseConsoleLines | support/testing/infra/emulator.py:79-81 | Collapsing turns the console's `"\r\r\n"` line ends into `"\r\n"`. |
| Session.Credentials | support/testing/infra/emulator.py:94-97 | Two writes when the password is truthy and one otherwise; the first is always `root`. |
| Session.CommandOutput | support/testing/infra/emulator.py:108-109 | No output line holds a line break. |
| Session.ExitCode | support/testing/infra/emulator.py:113-114 | The only failures are `IndexError` (no second line) and `ValueError` (no integer). |
| Session.WithBlankLines | support/testing/infra/emulator.py:79-81 | The screen with an empty line after every line but the last has `2n - 1` lines for `n` lines. |
| Session.WithBlankLinesAt | support/testing/infra/emulator.py:79-81 | Even positions hold the console lines in order; odd positions hold empty lines. |
| Session.SplitWithoutCollapse | support/testing/infra/emulator.py:79-81 | For every screen of console lines, splitting without the collapse gives the lines with an empty line after each one but the last. |
| Session.StripScreen | support/testing/infra/emulator.py:108 | Stripping a screen that starts with a visible character trims only the end of its last line. |
| Session.ScreenLines | support/testing/infra/emulator.py:107-108 | A collapsed, stripped and split console screen gives back its lines, the last one right-stripped. |
| Session.TimedOutScreenLines | support/testing/infra/emulator.py:107-108 | The same holds when the capture ends with a line break, as one that timed out does. |
| Session.RunOutputRoundTrip | support/testing/infra/emulator.py:107-109 | The output lines are exactly the lines printed between the echoed command and the prompt, provided the echo and those lines hold no `"# "`. |
| Session.RunExitCodeRoundTrip | support/testing/infra/emulator.py:111-114 | The exit code is exactly the status the shell printed. |
| Session.NoPromptBeforeMatch | support/testing/infra/emulator.py:107 | When the wait for `"# "` matched at the end of a screen, no earlier line holds `"# "`, and the last line holds a visible character. |
| Session.MatchedLastLine | support/testing/infra/emulator.py:74-77 | A matched capture that ends with a line after a line break has that line end with `"# "`; the text before the match is everything up to it. |
| Session.RunReplyOutput | support/testing/infra/emulator.py:105-109 | For every matched reply whose capture is a console screen, the output is exactly the printed lines. The absence of `"# "` from those lines follows from the reply itself. |
| Session.ExitCodeOfScreen | support/testing/infra/emulator.py:113-114 | A capture whose second line is the decimal text of a status yields that status. |
| Session.TimedOutRunLosesLastLine | support/testing/infra/emulator.py:74-78 | When the prompt never arrives and the captured lines hold no `"# "`, the command's last printed line is dropped as if it were the prompt. |
| Session.TimedOutStatusStillParses | support/testing/infra/emulator.py:74-78 | When the status capture times out after the status line, the status still parses. |
| Session.ExitCodeNeedsSecondLine | support/testing/infra/emulator.py:113 | A status capture of one line fails with `IndexError`. |
| Session.ExitCodeNeedsNumber | support/testing/infra/emulator.py:114 | A second line without digits fails with `ValueError`. |

## Left out

- Starting QEMU (`pexpect.spawn`) is reduced to the `spawned` flag. The terminal is not modelled: waits take their answer as an `Expect` parameter and writes go to `sent`. Wall-clock timeouts are only the `matched = false` answer.
- `infra.download` (network and file cache) is the function parameter `download`. The network access and caching are not modelled.
- `infra.open_log_file` and every write to the log file are left out. This covers the starting-QEMU line, the "System does not boot" note and the terminal echo into the file. The `builddir` and `logtofile` constructor arguments only serve that file.
- `pexpect.EOF` is not modelled. It is not in the pattern list of `__read_until` (emulator.py:74), so once QEMU exits every wait raises it. `Expect` has no such outcome, and the error it would raise is not part of `PyError`.
- `stop` is modelled as the `terminated` flag. Forced termination of the process itself is not modelled.
- Emulator.Emulator.ReadUntil: requires `spawned`. Waiting, writing, logging in or running before `boot` dereferences `None` in the source, and that `AttributeError` is not modelled as a result. The same holds for Emulator.Emulator.Write, Emulator.Emulator.Login and Emulator.Emulator.Run.
- Emulator.Emulator.ReadUntil: requires that a successful wait matched the awaited text itself and that the text before the match does not hold it. pexpect reads the pattern as a regular expression and stops at its first match, and the driver's patterns match only themselves.
- PyStr.Strip: only the six ASCII whitespace characters are stripped, and `splitlines` breaks only on `\n`, `\r` and `\r\n`. The driver works on byte strings, where these are the complete sets. Unicode whitespace and line separators do not apply.
- PyStr.ParseShowInt: `int()` is modelled for ASCII decimal digits with an optional sign and surrounding whitespace. Other bases, underscores and non-ASCII digits are left out.
- Emulator.Emulator.Boot: `options` is a sequence value. Python's `None` and `[]` are both "no options" and give the same vector. Aliasing between `options` and the vector is not modelled, which is harmless because `qemu_cmd` is always a fresh list.
