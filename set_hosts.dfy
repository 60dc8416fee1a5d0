/**
 * One run of the sethosts command: check the argument count, decode the
 * JSON argument, stop when the list is empty, otherwise back up the hosts
 * file and recreate it from the well-formed entries, echoing each written
 * line to stdout and logging each dropped entry.
 *
 * The machine's files and streams are strings; the JSON decoder is a
 * parameter of the run.
 */
module SetHosts {

  import opened HostsFormat

  /** What the JSON decoder makes of the argument. */
  datatype Decoded = ParseFailed(err: string) | Parsed(entries: seq<HostsEntry>)

  /** The observable state: hosts file, hosts.bak, stdout and the log (stderr). */
  datatype World = World(hosts: string, backup: string, stdout: string, log: seq<string>)

  /** The process exit code together with the state the run leaves. */
  datatype RunResult = RunResult(exitCode: nat, world: World)

  const MissingArgs: string := "Missing JSON hosts entries\n"
  const BadJson: string := "Bad JSON hosts entries\n"

  /** Whether a run decodes to a non-empty list and so touches the files. */
  predicate Writes(args: seq<string>, decode: string -> Decoded)
  {
    |args| == 1 && decode(args[0]).Parsed? && decode(args[0]).entries != []
  }

  /** The effect of one run of the command on the state `w`. */
  function Run(args: seq<string>, decode: string -> Decoded, w: World): (r: RunResult)
    ensures r.exitCode == 1 <==> |args| != 1 || decode(args[0]).ParseFailed?
    ensures r.exitCode != 1 ==> r.exitCode == 0
    ensures !Writes(args, decode) ==>
              r.world.hosts == w.hosts && r.world.backup == w.backup && r.world.stdout == w.stdout
    ensures Writes(args, decode) ==>
              r.world.backup == w.hosts && r.world.stdout == w.stdout + r.world.hosts
  {
    if |args| != 1 then
      RunResult(1, w.(log := w.log + [MissingArgs]))
    else
      match decode(args[0])
      case ParseFailed(err) =>
        RunResult(1, w.(log := w.log + [BadJson, err + "\n"]))
      case Parsed(entries) =>
        if entries == [] then RunResult(0, w)
        else
          var text := Render(entries);
          RunResult(0, World(text, w.hosts, w.stdout + text, w.log + Rejections(entries)))
  }

  /** The machine a run acts on; its fields are updated in place by RootRun. */
  class HostsMachine {
    var hosts: string
    var backup: string
    var stdout: string
    var log: seq<string>

    /** The machine's state as a value, for stating what a run does. */
    function State(): World
      reads this
    {
      World(hosts, backup, stdout, log)
    }

    /** The command body: returns the exit code the process ends with. */
    method RootRun(args: seq<string>, decode: string -> Decoded) returns (exitCode: nat)
      modifies this
      ensures RunResult(exitCode, State()) == Run(args, decode, old(State()))
    {
      if |args| != 1 {
        log := log + [MissingArgs];
        return 1;
      }
      var decoded := decode(args[0]);
      if decoded.ParseFailed? {
        log := log + [BadJson, decoded.err + "\n"];
        return 1;
      }
      var entries := decoded.entries;
      if |entries| == 0 {
        return 0;
      }
      // hosts.bak is removed, recreated and filled with the old hosts content.
      backup := hosts;
      // hosts is removed and recreated empty.
      hosts := "";
      var buffer := WriteEntries(entries);
      // Flush: the buffered lines reach the recreated hosts file.
      hosts := hosts + buffer;
      return 0;
    }

    /**
     * The loop over the entries: each well-formed entry's line is printed to
     * stdout and appended to the buffered writer of the hosts file, which is
     * returned; each other entry adds one line to the log.
     */
    method WriteEntries(entries: seq<HostsEntry>) returns (buffer: string)
      modifies this`stdout, this`log
      ensures buffer == Render(entries)
      ensures stdout == old(stdout) + buffer
      ensures log == old(log) + Rejections(entries)
    {
      buffer := "";
      var stdout0, log0 := stdout, log;
      ghost var done: seq<HostsEntry> := [];
      var i := 0;
      while i < |entries|
        invariant 0 <= i <= |entries|
        invariant done == entries[..i]
        invariant buffer == Render(done)
        invariant stdout == stdout0 + buffer
        invariant log == log0 + Rejections(done)
      {
        var entry := entries[i];
        RenderStep(done, entry);
        RejectionsStep(done, entry);
        if |entry.ip| > 0 && |entry.hostName| > 0 {
          var line := Line(entry);
          AppendAssoc(stdout0, buffer, line);
          stdout := stdout + line;
          buffer := buffer + line;
        } else {
          AppendAssoc(log0, Rejections(done), [LogLine(entry)]);
          log := log + [LogLine(entry)];
        }
        done := done + [entry];
        i := i + 1;
      }
      assert done == entries;
    }
  }

  // ---------------------------------------------------------------------
  // Properties of a run
  // ---------------------------------------------------------------------

  /**
   * A wrong argument count fails before decoding: the outcome does not
   * depend on the decoder, and only the log changes.
   */
  lemma ArgCountChecked(args: seq<string>, d1: string -> Decoded, d2: string -> Decoded, w: World)
    requires |args| != 1
    ensures Run(args, d1, w) == Run(args, d2, w)
    ensures Run(args, d1, w) == RunResult(1, w.(log := w.log + [MissingArgs]))
  {
  }

  /** A decoding failure exits with 1 and leaves hosts, backup and stdout as they were. */
  lemma ParseFailureAborts(args: seq<string>, decode: string -> Decoded, w: World)
    requires |args| == 1 && decode(args[0]).ParseFailed?
    ensures Run(args, decode, w) == RunResult(1, w.(log := w.log + [BadJson, decode(args[0]).err + "\n"]))
  {
  }

  /** An empty list ends the run successfully with nothing changed. */
  lemma EmptyListNoChange(args: seq<string>, decode: string -> Decoded, w: World)
    requires |args| == 1 && decode(args[0]) == Parsed([])
    ensures Run(args, decode, w) == RunResult(0, w)
  {
  }

  /**
   * Replace semantics: when the files are touched, the backup holds the
   * previous hosts content and the new hosts content depends on the entries
   * only, not on what the machine held before.
   */
  lemma ReplaceSemantics(args: seq<string>, decode: string -> Decoded, w1: World, w2: World)
    requires Writes(args, decode)
    ensures Run(args, decode, w1).world.backup == w1.hosts
    ensures Run(args, decode, w1).world.hosts == Run(args, decode, w2).world.hosts
    ensures Run(args, decode, w1).world.hosts == Render(Filter(decode(args[0]).entries))
  {
    RenderOnlyWellFormed(decode(args[0]).entries);
  }

  /**
   * The written hosts file reads back as exactly the well-formed entries, in
   * input order, one line each; when every entry is well-formed it is the
   * whole input.
   */
  lemma HostsReadBack(args: seq<string>, decode: string -> Decoded, w: World)
    requires Writes(args, decode)
    requires forall e :: e in Filter(decode(args[0]).entries) ==> SingleLine(e)
    ensures ParseHosts(Run(args, decode, w).world.hosts) == Some(Filter(decode(args[0]).entries))
    ensures Count(Run(args, decode, w).world.hosts, '\n') == |Filter(decode(args[0]).entries)|
  {
    var entries := decode(args[0]).entries;
    RenderRoundTrip(entries);
    RenderLineCount(entries);
  }

  /**
   * A non-empty list with no well-formed entry still replaces the files: the
   * backup takes the old hosts content and the hosts file ends up empty.
   */
  lemma AllMalformedEmptiesHosts(args: seq<string>, decode: string -> Decoded, w: World)
    requires Writes(args, decode) && Filter(decode(args[0]).entries) == []
    ensures Run(args, decode, w).exitCode == 0
    ensures Run(args, decode, w).world.hosts == ""
    ensures Run(args, decode, w).world.backup == w.hosts
  {
    RenderOnlyWellFormed(decode(args[0]).entries);
  }

  /** Each dropped entry adds exactly one log line, describing it, in input order. */
  lemma OneLogLinePerMalformed(args: seq<string>, decode: string -> Decoded, w: World)
    requires Writes(args, decode)
    ensures var log := Run(args, decode, w).world.log;
            var dropped := Malformed(decode(args[0]).entries);
            |log| == |w.log| + |dropped| && log[..|w.log|] == w.log &&
            forall i :: 0 <= i < |dropped| ==> log[|w.log| + i] == LogLine(dropped[i])
  {
    RejectionsDescribeMalformed(decode(args[0]).entries);
  }

  /** One well-formed entry: the hosts file becomes exactly its one line. */
  lemma SingleEntryScenario(arg: string, decode: string -> Decoded, w: World)
    requires decode(arg) == Parsed([HostsEntry("127.0.0.1", "test.local")])
    ensures Run([arg], decode, w) ==
              RunResult(0, World("127.0.0.1\ttest.local\n", w.hosts, w.stdout + "127.0.0.1\ttest.local\n", w.log))
  {
  }

  /** One entry with an empty address: nothing is written, one log line, exit code 0. */
  lemma EmptyAddressScenario(arg: string, decode: string -> Decoded, w: World)
    requires decode(arg) == Parsed([HostsEntry("", "x")])
    ensures Run([arg], decode, w) ==
              RunResult(0, World("", w.hosts, w.stdout, w.log + ["Ignored malformed JSON host entry IP:  and HostName: x\n"]))
  {
    var e := HostsEntry("", "x");
    assert [e][1..] == [];
    assert Render([e]) == "";
    assert LogLine(e) == "Ignored malformed JSON host entry IP:  and HostName: x\n";
    assert Rejections([e]) == [LogLine(e)];
  }
}
