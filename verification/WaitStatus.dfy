/** The status word of a child process: how the kernel builds it (src/kernel/proc/proc.c) and how the
    macros of include/sys/wait.h take it apart. */
module WaitStatus {

  /** The macros, on a C `int` in two's complement. */
  predicate IsExited(status: int) { status % 128 == 0 }

  function ExitCode(status: int): int { status / 256 % 256 }

  predicate IsSignalled(status: int) { status % 128 != 0 && status % 128 != 127 && status / 128 % 2 == 0 }

  function TermSignal(status: int): int { status % 128 }

  predicate IsStopped(status: int) { status % 128 == 127 }

  function StopSignal(status: int): int { status / 256 % 256 }

  predicate IsContinued(status: int) { status == 0xffff }

  /** What can become of a child, as the kernel is told: any `int` for a code or a signal. */
  datatype Fate = Exit(code: int) | Killed(signo: int) | Stop(signo: int) | Continue

  /** The status the kernel records. */
  function Encode(f: Fate): int {
    match f
    case Exit(code) => code % 256 * 256
    case Killed(signo) => signo % 128
    case Stop(signo) => signo % 128 * 256 + 127
    case Continue => 0xffff
  }

  /** The low seven bits decide, whatever stands above them, a core-dump flag included. */
  lemma LowBitsDecide(high: int, low: int)
    requires 0 <= low < 128
    ensures IsStopped(high * 128 + low) <==> low == 127
    ensures IsExited(high * 128 + low) <==> low == 0
  {
    assert (high * 128 + low) % 128 == low;
  }

  /** The macros undo the encoding: each tells its own kind of status and gives the code or signal
      back, cut to the bits that hold it. A continued child also looks stopped, and a child killed by
      a signal looks stopped, or exited, exactly for the two signal numbers that no signal has. */
  lemma DecodeUndoesEncode(f: Fate)
    ensures var s := Encode(f);
            match f
            case Exit(code) =>
              IsExited(s) && !IsSignalled(s) && !IsStopped(s) && !IsContinued(s) && ExitCode(s) == code % 256
            case Killed(signo) =>
              && (IsSignalled(s) <==> signo % 128 != 0 && signo % 128 != 127)
              && (IsStopped(s) <==> signo % 128 == 127) && (IsExited(s) <==> signo % 128 == 0)
              && !IsContinued(s) && TermSignal(s) == signo % 128
            case Stop(signo) =>
              IsStopped(s) && !IsExited(s) && !IsSignalled(s) && !IsContinued(s) && StopSignal(s) == signo % 128
            case Continue => IsContinued(s) && IsStopped(s) && !IsExited(s) && !IsSignalled(s)
  {
  }

  /** A child that is gone: it exited, or was killed by a signal that exists. */
  predicate IsEnd(f: Fate) { f.Exit? || (f.Killed? && 1 <= f.signo <= 126) }

  /** The status of a child that is gone, as the kernel reports it. */
  ghost predicate EndStatus(status: int) { exists f :: IsEnd(f) && Encode(f) == status }

  lemma EndIsNotStopped(status: int)
    requires EndStatus(status)
    ensures !IsStopped(status)
  {
    var f :| IsEnd(f) && Encode(f) == status;
    DecodeUndoesEncode(f);
  }

  /** The poller asks for "stopped" first, and every continued status also looks stopped: a job is
      never seen to continue. */
  lemma ContinuedLooksStopped(status: int)
    ensures IsContinued(status) ==> IsStopped(status)
  {
    DecodeUndoesEncode(Continue);
  }
}
