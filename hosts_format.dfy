/**
 * The entries sethosts writes and the text it makes of them: which entries
 * are kept, the line each kept entry becomes, the log line each dropped entry
 * becomes, and a reader for the produced hosts text which, on entries that
 * fit on one line, inverts the renderer.
 */
module HostsFormat {

  datatype Option<T> = None | Some(value: T)

  /** One decoded record of the input list: an address and the name it maps. */
  datatype HostsEntry = HostsEntry(ip: string, hostName: string)

  /** An entry is written out only when both of its fields are non-empty. */
  predicate WellFormed(e: HostsEntry)
  {
    |e.ip| > 0 && |e.hostName| > 0
  }

  /** Neither field holds a newline, so the entry's line is one line. */
  predicate NewlineFree(e: HostsEntry)
  {
    '\n' !in e.ip && '\n' !in e.hostName
  }

  /**
   * Fields that keep the line of an entry a single line that can be read
   * back: no newline inside either field (the newline ends the line) and no
   * tab inside the address (the tab is the separator).
   */
  predicate SingleLine(e: HostsEntry)
  {
    NewlineFree(e) && '\t' !in e.ip
  }

  /** The hosts-file line of an entry: the address, a tab, the name, a newline. */
  function Line(e: HostsEntry): string
  {
    e.ip + "\t" + e.hostName + "\n"
  }

  /** The text one step of the loop adds to the hosts buffer and to stdout. */
  function Emit(e: HostsEntry): string
  {
    if WellFormed(e) then Line(e) else ""
  }

  /** The log line of a dropped entry (the logger's timestamp prefix aside). */
  function LogLine(e: HostsEntry): string
  {
    "Ignored malformed JSON host entry IP: " + e.ip + " and HostName: " + e.hostName + "\n"
  }

  /** The entries that are written, in input order. */
  function Filter(es: seq<HostsEntry>): (r: seq<HostsEntry>)
    ensures |r| <= |es|
    ensures forall e :: e in r <==> e in es && WellFormed(e)
  {
    if es == [] then []
    else (if WellFormed(es[0]) then [es[0]] else []) + Filter(es[1..])
  }

  /** The entries that are dropped, in input order. */
  function Malformed(es: seq<HostsEntry>): (r: seq<HostsEntry>)
    ensures |r| + |Filter(es)| == |es|
    ensures forall e :: e in r <==> e in es && !WellFormed(e)
  {
    if es == [] then []
    else (if WellFormed(es[0]) then [] else [es[0]]) + Malformed(es[1..])
  }

  /** The text written to the hosts file (and to stdout) for a list of entries. */
  function Render(es: seq<HostsEntry>): string
  {
    if es == [] then "" else Emit(es[0]) + Render(es[1..])
  }

  /** The log lines written for a list of entries, one per dropped entry. */
  function Rejections(es: seq<HostsEntry>): seq<string>
  {
    if es == [] then []
    else (if WellFormed(es[0]) then [] else [LogLine(es[0])]) + Rejections(es[1..])
  }

  // ---------------------------------------------------------------------
  // A reader for the produced text; on single-line entries it inverts Render.
  // ---------------------------------------------------------------------

  /** The position of the first `c` in `s`, or `|s|` when there is none. */
  function IndexOf(s: string, c: char): (n: nat)
    ensures n <= |s|
    ensures n < |s| <==> c in s
    ensures n < |s| ==> s[n] == c
    ensures forall k :: 0 <= k < n ==> s[k] != c
  {
    if s == [] then 0
    else if s[0] == c then 0
    else 1 + IndexOf(s[1..], c)
  }

  /** Splits one line (without its newline) at its first tab. */
  function ParseLine(line: string): Option<HostsEntry>
  {
    var t := IndexOf(line, '\t');
    if t == |line| then None else Some(HostsEntry(line[..t], line[t + 1..]))
  }

  /**
   * Reads a hosts text made of newline-terminated `address<TAB>name` lines;
   * None when a line lacks its tab or the text lacks its final newline.
   */
  function ParseHosts(s: string): Option<seq<HostsEntry>>
    decreases |s|
  {
    if s == [] then Some([])
    else
      var n := IndexOf(s, '\n');
      if n == |s| then None
      else
        match ParseLine(s[..n])
        case None => None
        case Some(e) =>
          match ParseHosts(s[n + 1..])
          case None => None
          case Some(rest) => Some([e] + rest)
  }

  /** The number of occurrences of `c` in `s`. */
  function Count(s: string, c: char): nat
  {
    if s == [] then 0 else (if s[0] == c then 1 else 0) + Count(s[1..], c)
  }

  // ---------------------------------------------------------------------
  // Lemmas
  // ---------------------------------------------------------------------

  /** Filtering distributes over concatenation: order is kept across the split. */
  lemma {:induction false} FilterAppend(a: seq<HostsEntry>, b: seq<HostsEntry>)
    ensures Filter(a + b) == Filter(a) + Filter(b)
  {
    if a == [] {
      assert a + b == b;
    } else {
      assert (a + b)[1..] == a[1..] + b;
      FilterAppend(a[1..], b);
    }
  }

  /** Rendering distributes over concatenation: the loop may append step by step. */
  lemma {:induction false} RenderAppend(a: seq<HostsEntry>, b: seq<HostsEntry>)
    ensures Render(a + b) == Render(a) + Render(b)
  {
    if a == [] {
      assert a + b == b;
    } else {
      assert (a + b)[1..] == a[1..] + b;
      RenderAppend(a[1..], b);
    }
  }

  /** One step of the writing loop: the text grows by the entry's line, if any. */
  lemma RenderStep(done: seq<HostsEntry>, e: HostsEntry)
    ensures Render(done + [e]) == Render(done) + Emit(e)
  {
    RenderAppend(done, [e]);
    assert [e][1..] == [];
  }

  /** One step of the writing loop: the log grows by the entry's log line, if any. */
  lemma RejectionsStep(done: seq<HostsEntry>, e: HostsEntry)
    ensures Rejections(done + [e]) == Rejections(done) + (if WellFormed(e) then [] else [LogLine(e)])
  {
    RejectionsAppend(done, [e]);
    assert [e][1..] == [];
  }

  /** Regrouping appended text, used when the loop appends to a stream. */
  lemma AppendAssoc<T>(a: seq<T>, b: seq<T>, c: seq<T>)
    ensures (a + b) + c == a + (b + c)
  {
  }

  /** The log lines distribute over concatenation. */
  lemma {:induction false} RejectionsAppend(a: seq<HostsEntry>, b: seq<HostsEntry>)
    ensures Rejections(a + b) == Rejections(a) + Rejections(b)
  {
    if a == [] {
      assert a + b == b;
    } else {
      assert (a + b)[1..] == a[1..] + b;
      RejectionsAppend(a[1..], b);
    }
  }

  /** Dropped entries contribute nothing: the text is that of the kept entries alone. */
  lemma {:induction false} RenderOnlyWellFormed(es: seq<HostsEntry>)
    ensures Render(es) == Render(Filter(es))
  {
    if es != [] {
      RenderOnlyWellFormed(es[1..]);
      if WellFormed(es[0]) {
        assert ([es[0]] + Filter(es[1..]))[1..] == Filter(es[1..]);
      } else {
        assert Filter(es) == Filter(es[1..]);
      }
    }
  }

  /** A list of well-formed entries is written in full and unchanged. */
  lemma {:induction false} FilterKeepsWellFormed(es: seq<HostsEntry>)
    requires forall i :: 0 <= i < |es| ==> WellFormed(es[i])
    ensures Filter(es) == es
  {
    if es != [] {
      FilterKeepsWellFormed(es[1..]);
      assert [es[0]] + es[1..] == es;
    }
  }

  /** Every entry is either kept or dropped, exactly once. */
  lemma {:induction false} FilterPartition(es: seq<HostsEntry>)
    ensures multiset(Filter(es)) + multiset(Malformed(es)) == multiset(es)
  {
    if es != [] {
      FilterPartition(es[1..]);
      assert es == [es[0]] + es[1..];
    }
  }

  /**
   * The k-th written entry is the k-th well-formed input entry: a kept entry
   * at input position i sits at position |Filter(es[..i])| of the output.
   */
  lemma FilterAt(es: seq<HostsEntry>, i: nat)
    requires i < |es| && WellFormed(es[i])
    ensures |Filter(es[..i])| < |Filter(es)|
    ensures Filter(es)[|Filter(es[..i])|] == es[i]
  {
    assert es == es[..i] + es[i..];
    FilterAppend(es[..i], es[i..]);
    assert es[i..][0] == es[i];
  }

  /** Two kept entries are written in their input order. */
  lemma FilterKeepsOrder(es: seq<HostsEntry>, i: nat, j: nat)
    requires i < j < |es| && WellFormed(es[i]) && WellFormed(es[j])
    ensures |Filter(es[..i])| < |Filter(es[..j])| < |Filter(es)|
    ensures Filter(es)[|Filter(es[..i])|] == es[i]
    ensures Filter(es)[|Filter(es[..j])|] == es[j]
  {
    FilterAt(es, i);
    FilterAt(es, j);
    assert es[..j] == es[..i] + es[i..j];
    FilterAppend(es[..i], es[i..j]);
    assert es[i..j][0] == es[i];
  }

  /** The i-th log line describes the i-th dropped entry. */
  lemma {:induction false} RejectionsDescribeMalformed(es: seq<HostsEntry>)
    ensures |Rejections(es)| == |Malformed(es)|
    ensures forall i :: 0 <= i < |Rejections(es)| ==> Rejections(es)[i] == LogLine(Malformed(es)[i])
  {
    if es != [] {
      RejectionsDescribeMalformed(es[1..]);
      if WellFormed(es[0]) {
        assert Rejections(es) == Rejections(es[1..]);
        assert Malformed(es) == Malformed(es[1..]);
      } else {
        assert Rejections(es) == [LogLine(es[0])] + Rejections(es[1..]);
        assert Malformed(es) == [es[0]] + Malformed(es[1..]);
      }
    }
  }

  lemma {:induction false} CountAppend(a: string, b: string, c: char)
    ensures Count(a + b, c) == Count(a, c) + Count(b, c)
  {
    if a == [] {
      assert a + b == b;
    } else {
      assert (a + b)[1..] == a[1..] + b;
      CountAppend(a[1..], b, c);
    }
  }

  lemma {:induction false} CountAbsent(s: string, c: char)
    requires c !in s
    ensures Count(s, c) == 0
  {
    if s != [] {
      CountAbsent(s[1..], c);
    }
  }

  /**
   * Each kept entry adds exactly one newline: one line per written entry.
   * Only the kept entries' fields matter, since dropped ones write nothing.
   */
  lemma {:induction false} RenderLineCount(es: seq<HostsEntry>)
    requires forall e :: e in Filter(es) ==> NewlineFree(e)
    ensures Count(Render(es), '\n') == |Filter(es)|
  {
    if es != [] {
      assert forall e :: e in Filter(es[1..]) ==> e in Filter(es);
      RenderLineCount(es[1..]);
      CountAppend(Emit(es[0]), Render(es[1..]), '\n');
      if WellFormed(es[0]) {
        var e := es[0];
        assert e in Filter(es);
        CountAppend(e.ip, "\t", '\n');
        CountAppend(e.ip + "\t", e.hostName, '\n');
        CountAppend(e.ip + "\t" + e.hostName, "\n", '\n');
        CountAbsent(e.ip, '\n');
        CountAbsent(e.hostName, '\n');
      }
    }
  }

  /** The first newline of `a + [c] + b` is the one after `a` when `a` has none. */
  lemma IndexOfFirst(a: string, c: char, b: string)
    requires c !in a
    ensures IndexOf(a + [c] + b, c) == |a|
  {
    var s := a + [c] + b;
    assert s[|a|] == c;
  }

  /** Reading a line followed by more text gives its entry followed by the rest. */
  lemma LineRoundTrip(e: HostsEntry, rest: string)
    requires SingleLine(e)
    ensures ParseHosts(Line(e) + rest) ==
              match ParseHosts(rest)
              case None => None
              case Some(tail) => Some([e] + tail)
  {
    var body := e.ip + "\t" + e.hostName;
    var s := Line(e) + rest;
    assert s == body + ['\n'] + rest;
    assert '\n' !in body by {
      forall k | 0 <= k < |body| ensures body[k] != '\n' {
        if k < |e.ip| {
          assert body[k] == e.ip[k];
        } else if k > |e.ip| {
          assert body[k] == e.hostName[k - |e.ip| - 1];
        }
      }
    }
    IndexOfFirst(body, '\n', rest);
    assert s[..|body|] == body;
    assert s[|body| + 1..] == rest;
    IndexOfFirst(e.ip, '\t', e.hostName);
    assert body == e.ip + ['\t'] + e.hostName;
    assert body[..|e.ip|] == e.ip;
    assert body[|e.ip| + 1..] == e.hostName;
    assert ParseLine(body) == Some(e);
  }

  /**
   * Reading the rendered text back gives exactly the kept entries, in order:
   * every kept entry is one `address<TAB>name` line and nothing else is written.
   */
  lemma {:induction false} RenderRoundTrip(es: seq<HostsEntry>)
    requires forall e :: e in Filter(es) ==> SingleLine(e)
    ensures ParseHosts(Render(es)) == Some(Filter(es))
  {
    if es != [] {
      var tail := Render(es[1..]);
      assert forall e :: e in Filter(es[1..]) ==> e in Filter(es);
      RenderRoundTrip(es[1..]);
      assert ParseHosts(tail) == Some(Filter(es[1..]));
      if WellFormed(es[0]) {
        assert Render(es) == Line(es[0]) + tail;
        assert es[0] in Filter(es);
        LineRoundTrip(es[0], tail);
        assert Filter(es) == [es[0]] + Filter(es[1..]);
      } else {
        assert Render(es) == tail;
        assert Filter(es) == Filter(es[1..]);
      }
    }
  }

  /**
   * Without the newline-free condition the line count fails: a kept entry
   * whose name holds a newline is written as two lines.
   */
  lemma NewlineInNameSplitsLine()
    ensures Count(Render([HostsEntry("1", "a\nb")]), '\n') == 2
  {
  }
}
