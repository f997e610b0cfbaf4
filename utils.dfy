/** The shared helpers of `utils.js` and `calcite/utils.js`. */
module Utils {

  /** A directory entry as `readdir(path, { withFileTypes: true })` returns it. */
  datatype Dirent = Dirent(name: string, isDirectory: bool)

  /** `getDirectories`: the names of the entries that are directories, in
      `readdir` order. */
  function GetDirectories(entries: seq<Dirent>): seq<string>
    decreases |entries|
  {
    if |entries| == 0 then []
    else (if entries[0].isDirectory then [entries[0].name] else []) + GetDirectories(entries[1..])
  }

  /** Filtering commutes with concatenation: the relative order of the kept
      entries is the order of `readdir`. */
  lemma {:induction false} GetDirectoriesAppend(a: seq<Dirent>, b: seq<Dirent>)
    ensures GetDirectories(a + b) == GetDirectories(a) + GetDirectories(b)
    decreases |a|
  {
    if |a| > 0 {
      assert (a + b)[1..] == a[1..] + b;
      GetDirectoriesAppend(a[1..], b);
    } else {
      assert a + b == b;
    }
  }

  /** A name is returned iff some directory entry carries it. */
  lemma {:induction false} GetDirectoriesMembers(entries: seq<Dirent>, n: string)
    ensures n in GetDirectories(entries)
        <==> exists i :: 0 <= i < |entries| && entries[i].isDirectory && entries[i].name == n
    decreases |entries|
  {
    if |entries| > 0 {
      GetDirectoriesMembers(entries[1..], n);
      if exists i :: 0 <= i < |entries| && entries[i].isDirectory && entries[i].name == n {
        var i :| 0 <= i < |entries| && entries[i].isDirectory && entries[i].name == n;
        if i > 0 {
          assert entries[1..][i - 1] == entries[i];
        }
      }
      if n in GetDirectories(entries[1..]) {
        var i :| 0 <= i < |entries| - 1 && entries[1..][i].isDirectory && entries[1..][i].name == n;
        assert entries[i + 1] == entries[1..][i];
      }
    }
  }

  /** The result is never longer than the listing, and as long as it exactly
      when every entry is a directory. */
  lemma {:induction false} GetDirectoriesLength(entries: seq<Dirent>)
    ensures |GetDirectories(entries)| <= |entries|
    ensures |GetDirectories(entries)| == |entries| <==> forall i :: 0 <= i < |entries| ==> entries[i].isDirectory
    decreases |entries|
  {
    if |entries| > 0 {
      GetDirectoriesLength(entries[1..]);
      if forall i :: 0 <= i < |entries| ==> entries[i].isDirectory {
        assert forall i :: 0 <= i < |entries| - 1 ==> entries[1..][i] == entries[i + 1];
      }
      if forall i :: 0 <= i < |entries| - 1 ==> entries[1..][i].isDirectory {
        assert forall i :: 1 <= i < |entries| ==> entries[i] == entries[1..][i - 1];
      }
    }
  }

  /** The six process events the progress animations register on. */
  const ExitEvents: seq<string> := ["exit", "SIGINT", "SIGUSR1", "SIGUSR2", "uncaughtException", "SIGTERM"]

  /** Terminal control output of the animations. */
  const HideCursor: string := "\U{001B}[?25l\r"
  const ShowCursor: string := "\U{001B}[2K\r\U{001B}[?25h"

  /** What one spinner tick writes: the message on a cleared line every seventh
      tick, starting with the first, and a dot otherwise. */
  function SpinnerFrame(count: nat, message: string): (frame: string)
    ensures count % 7 == 0 ==> frame == "\U{001B}[2K\r" + message
    ensures count % 7 != 0 ==> frame == "."
  {
    if count % 7 == 0 then "\U{001B}[2K\r" + message else "."
  }

  /** The closure `toggleLoadingAnimation` of `calcite/utils.js`: its captured
      `called`, `interval` and `count`, the events it registered itself on and
      what it wrote to standard output. */
  class LoadingAnimation {
    var called: bool
    /** an interval is set and not cleared */
    var ticking: bool
    var count: nat
    /** `process.once` registrations of the toggle, one per event */
    var listeners: seq<string>
    var stdout: seq<string>

    ghost predicate Valid()
      reads this
    {
      (ticking ==> called) && (listeners == if called then ExitEvents else [])
    }

    constructor ()
      ensures Valid() && !called && !ticking && count == 0 && listeners == [] && stdout == []
    {
      called, ticking, count := false, false, 0;
      listeners, stdout := [], [];
    }

    /** The first call registers the toggle on the six exit events, hides the
        cursor and starts the spinner; every later call clears the interval and
        shows the cursor again. `called` is never reset. */
    method Toggle()
      requires Valid()
      modifies this
      ensures Valid() && called && listeners == ExitEvents
      ensures !old(called) ==> ticking && count == 0 && stdout == old(stdout) + [HideCursor]
      ensures old(called) ==> !ticking && count == old(count) && stdout == old(stdout) + [ShowCursor]
    {
      if !called {
        var i := 0;
        while i < |ExitEvents|
          invariant 0 <= i <= |ExitEvents|
          invariant listeners == ExitEvents[..i]
          invariant stdout == old(stdout) && !called
        {
          listeners := listeners + [ExitEvents[i]];
          i := i + 1;
        }
        stdout := stdout + [HideCursor];
        count := 0;
        ticking := true;
        called := true;
      } else {
        ticking := false;
        stdout := stdout + [ShowCursor];
      }
    }

    /** One firing of the interval; a cleared interval does not fire. The
        message is always "creating issues", whatever the caller passed. */
    method Tick()
      requires Valid()
      modifies this
      ensures Valid() && called == old(called) && ticking == old(ticking) && listeners == old(listeners)
      ensures old(ticking) ==> count == old(count) + 1 && stdout == old(stdout) + [SpinnerFrame(old(count), "creating issues")]
      ensures !old(ticking) ==> count == old(count) && stdout == old(stdout)
    {
      if ticking {
        stdout := stdout + [SpinnerFrame(count, "creating issues")];
        count := count + 1;
      }
    }
  }
}
