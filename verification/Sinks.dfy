/** Where log records go: files opened lazily, one per severity, each receiving its own records and
    those of every higher severity. A file is the sequence of records written to it. */
module Sinks {
  import opened Text

  const INFO := 0
  const FATAL := 3

  /** A record that went to files: its severity, the name of its own file ("" for the severity
      files), and its text. */
  datatype Record = Record(severity: int, fileName: string, text: string)

  /** The records for the severity file s, in order. */
  function Select(history: seq<Record>, s: int): seq<Record> {
    if history == [] then []
    else
      var init, last := history[..|history| - 1], history[|history| - 1];
      if last.fileName == "" && last.severity >= s then Select(init, s) + [last] else Select(init, s)
  }

  /** The records for a named file, in order, whatever their severity. */
  function SelectNamed(history: seq<Record>, name: string): seq<Record> {
    if history == [] then []
    else
      var init, last := history[..|history| - 1], history[|history| - 1];
      if last.fileName == name then SelectNamed(init, name) + [last] else SelectNamed(init, name)
  }

  lemma {:induction false} SelectMore(history: seq<Record>, r: Record, s: int, name: string)
    ensures Select(history + [r], s) == Select(history, s) + if r.fileName == "" && r.severity >= s then [r] else []
    ensures SelectNamed(history + [r], name) == SelectNamed(history, name) + if r.fileName == name then [r] else []
  {
    assert (history + [r])[..|history|] == history;
    assert Select(history, s) + [] == Select(history, s);
    assert SelectNamed(history, name) + [] == SelectNamed(history, name);
  }

  /** The file of a higher severity holds exactly those records of a lower one's that are that
      severe, in the same order. */
  lemma {:induction false} FilesNest(history: seq<Record>, s: int, t: int)
    requires s <= t
    ensures Select(Select(history, s), t) == Select(history, t)
    ensures Select(history, s) == [] ==> Select(history, t) == []
  {
    if history != [] {
      var init, last := history[..|history| - 1], history[|history| - 1];
      FilesNest(init, s, t);
      SelectMore(Select(init, s), last, t, "");
    }
  }

  /** What the severity file s holds after a history: it is opened by its first record. */
  function FileOf(history: seq<Record>, s: int): Option<seq<Record>> {
    if Select(history, s) == [] then None else Some(Select(history, s))
  }

  class Logger {
    const file: array<Option<seq<Record>>>
    var fileN: map<string, seq<Record>>
    var toStderr: bool
    var alsoToStderr: bool
    var stderrThreshold: int
    var stderr: seq<string>
    var exited: bool
    ghost var history: seq<Record>

    constructor ()
      ensures Consistent() && history == [] && stderr == [] && !exited
      ensures fresh(file)
    {
      file := new Option<seq<Record>>[4](_ => None);
      fileN, toStderr, alsoToStderr, stderrThreshold, stderr, exited := map[], false, false, 2, [], false;
      history := [];
    }

    /** Every file holds what the history says, and is open exactly when that is something. */
    ghost predicate Consistent()
      reads this, file
    {
      && file.Length == 4
      && (forall s :: 0 <= s < 4 ==> file[s] == FileOf(history, s))
      && (forall name :: name in fileN ==> name != "")
      && (forall name :: name != "" ==>
            if SelectNamed(history, name) == [] then name !in fileN
            else name in fileN && fileN[name] == SelectNamed(history, name))
    }

    /** The open severity files are downward closed. */
    ghost predicate DownwardClosed()
      requires file.Length == 4
      reads this, file
    {
      forall s, t :: 0 <= s <= t < 4 && file[t].Some? ==> file[s].Some?
    }

    lemma ConsistentIsClosed()
      requires Consistent()
      ensures DownwardClosed()
    {
      forall s, t | 0 <= s <= t < 4 && file[t].Some? ensures file[s].Some? {
        FilesNest(history, s, t);
      }
    }

    /** `createFiles` for the severity files: it may stop at the first one already open, because
        those below it are open too. */
    method CreateFiles(sev: int)
      requires 0 <= sev < 4 && file.Length == 4 && DownwardClosed()
      modifies file
      ensures forall k :: 0 <= k < 4 ==>
        file[k] == if k <= sev && old(file[k]).None? then Some([]) else old(file[k])
    {
      var s := sev;
      while s >= INFO && file[s].None?
        invariant -1 <= s <= sev
        invariant forall k :: 0 <= k < 4 ==> file[k] == if s < k <= sev && old(file[k]).None? then Some([]) else old(file[k])
        invariant forall k :: s < k <= sev ==> old(file[k]).None?
      {
        file[s] := Some([]);
        s := s - 1;
      }
      if s >= 0 {
        assert file[s] == old(file[s]);
      }
    }

    /** The fall-through switch: the record goes to its severity's file and to every lower one. */
    method WriteDown(r: Record)
      requires 0 <= r.severity < 4 && file.Length == 4
      requires forall k :: 0 <= k <= r.severity ==> file[k].Some?
      modifies file
      ensures forall k :: 0 <= k < 4 ==>
        file[k] == if k <= r.severity then Some(old(file[k]).value + [r]) else old(file[k])
    {
      var s := r.severity;
      while s >= INFO
        invariant -1 <= s <= r.severity
        invariant forall k :: 0 <= k < 4 ==>
          file[k] == if s < k <= r.severity then Some(old(file[k]).value + [r]) else old(file[k])
      {
        if file[s].Some? {
          file[s] := Some(file[s].value + [r]);
        }
        s := s - 1;
      }
    }

    /** The history after one more record, file by file. */
    lemma HistoryMore(before: seq<Record>, r: Record)
      ensures forall s :: Select(before + [r], s) == Select(before, s) + if r.fileName == "" && r.severity >= s then [r] else []
      ensures forall name :: SelectNamed(before + [r], name) == SelectNamed(before, name) + if r.fileName == name then [r] else []
    {
      forall s ensures Select(before + [r], s) == Select(before, s) + if r.fileName == "" && r.severity >= s then [r] else [] {
        SelectMore(before, r, s, "");
      }
      forall name ensures SelectNamed(before + [r], name) == SelectNamed(before, name) + if r.fileName == name then [r] else [] {
        SelectMore(before, r, 0, name);
      }
    }

    /** One record into the severity files: created if need be, then written. */
    method WriteToSeverities(r: Record)
      requires Consistent() && 0 <= r.severity < 4 && r.fileName == ""
      modifies file, this`history
      ensures Consistent() && history == old(history) + [r]
    {
      HistoryMore(history, r);
      ConsistentIsClosed();
      if file[r.severity].None? {
        CreateFiles(r.severity);
      }
      WriteDown(r);
      history := history + [r];
    }

    /** One record into its own file. */
    method WriteToNamed(r: Record)
      requires Consistent() && r.fileName != ""
      modifies this`fileN, this`history
      ensures Consistent() && history == old(history) + [r]
    {
      HistoryMore(history, r);
      if r.fileName !in fileN {
        fileN := fileN[r.fileName := []];
      }
      fileN := fileN[r.fileName := fileN[r.fileName] + [r]];
      history := history + [r];
    }

    /** What a record adds to standard error. */
    function OnStderr(r: Record, also: bool, parsed: bool): seq<string>
      reads this`toStderr, this`alsoToStderr, this`stderrThreshold
    {
      if !parsed then ["ERROR: logging before flag.Parse: ", r.text]
      else if toStderr || also || alsoToStderr || r.severity >= stderrThreshold then [r.text]
      else []
    }

    /** `output` up to the fatal exit: standard error by flag and threshold, and the files unless
        everything goes to standard error. */
    method Emit(r: Record, also: bool, parsed: bool)
      requires Consistent() && 0 <= r.severity < 4
      modifies file, this`fileN, this`history, this`stderr
      ensures Consistent()
      ensures history == if parsed && !toStderr then old(history) + [r] else old(history)
      ensures stderr == old(stderr) + OnStderr(r, also, parsed)
    {
      if !parsed {
        stderr := stderr + ["ERROR: logging before flag.Parse: "];
        stderr := stderr + [r.text];
      } else if toStderr {
        stderr := stderr + [r.text];
      } else {
        if also || alsoToStderr || r.severity >= stderrThreshold {
          stderr := stderr + [r.text];
        }
        if r.fileName == "" {
          WriteToSeverities(r);
        } else {
          WriteToNamed(r);
        }
      }
    }

    /** The fatal exit: the trace of all goroutines goes to every file that is open (or to the
        record's own file), unless stacks are switched off; then the process ends. */
    method Exit(fileName: string, noStacks: bool, ownStack: string, allStacks: string)
      requires file.Length == 4
      modifies file, this`fileN, this`stderr, this`exited
      ensures exited
      ensures noStacks ==> fileN == old(fileN) && stderr == old(stderr)
      ensures !noStacks ==> stderr == old(stderr) + if toStderr then [] else [ownStack]
      ensures forall k :: 0 <= k < 4 ==>
        file[k] == if !noStacks && fileName == "" && old(file[k]).Some?
                   then Some(old(file[k]).value + [Record(FATAL, fileName, allStacks)]) else old(file[k])
      ensures !noStacks && fileName != "" && fileName in old(fileN) ==>
        fileN == old(fileN)[fileName := old(fileN)[fileName] + [Record(FATAL, fileName, allStacks)]]
      ensures fileName == "" || fileName !in old(fileN) ==> fileN == old(fileN)
    {
      exited := true;
      if noStacks {
        return;
      }
      if !toStderr {
        stderr := stderr + [ownStack];
      }
      var trace := Record(FATAL, fileName, allStacks);
      if fileName == "" {
        var log := FATAL;
        while log >= INFO
          modifies file
          invariant -1 <= log <= FATAL
          invariant forall k :: 0 <= k < 4 ==>
            file[k] == if k > log && old(file[k]).Some? then Some(old(file[k]).value + [trace]) else old(file[k])
        {
          if file[log].Some? {
            file[log] := Some(file[log].value + [trace]);
          }
          log := log - 1;
        }
      } else if fileName in fileN {
        fileN := fileN[fileName := fileN[fileName] + [trace]];
      }
    }

    /** `output`: as long as no fatal record has come, the files hold exactly what the history of
        file-logged records says; a fatal one leaves the trace at the end of every severity file
        that is open by then. */
    method Output(r: Record, also: bool, parsed: bool, noStacks: bool, ownStack: string, allStacks: string)
      requires Consistent() && !exited && 0 <= r.severity < 4
      modifies file, this
      ensures exited <==> r.severity == FATAL
      ensures !exited ==> Consistent() && stderr == old(stderr) + old(OnStderr(r, also, parsed))
      ensures exited && noStacks ==> Consistent() && stderr == old(stderr) + old(OnStderr(r, also, parsed))
      ensures exited && !noStacks ==>
        stderr == old(stderr) + old(OnStderr(r, also, parsed)) + if old(toStderr) then [] else [ownStack]
      ensures exited && !noStacks && r.fileName != "" ==>
        && (forall s :: 0 <= s < 4 ==> file[s] == FileOf(history, s))
        && (forall name :: name in fileN <==> name != "" && SelectNamed(history, name) != [])
        && (forall name :: name in fileN ==>
              fileN[name] == SelectNamed(history, name) + if name == r.fileName then [Record(FATAL, name, allStacks)] else [])
      ensures exited && !noStacks && r.fileName == "" ==> forall s :: 0 <= s < 4 ==>
        file[s] == match FileOf(history, s)
                   case Some(records) => Some(records + [Record(FATAL, "", allStacks)])
                   case None => None
      ensures history == if parsed && !old(toStderr) then old(history) + [r] else old(history)
      ensures toStderr == old(toStderr) && alsoToStderr == old(alsoToStderr) && stderrThreshold == old(stderrThreshold)
    {
      Emit(r, also, parsed);
      if r.severity == FATAL {
        Exit(r.fileName, noStacks, ownStack, allStacks);
      }
    }
  }
}
