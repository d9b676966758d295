/**
 * The usage-history store: `readHistory` parses `<calls>\t<name>` lines and
 * ranks them, `writeHistory` records one launch and rewrites every line.
 * The file is a value: its content, or `None` when it cannot be opened; the
 * text `writeHistory` writes is its result.
 */
module History {
  import opened Wrappers
  import opened Text
  import opened Commands

  // ------------------------------------------------------------------ reading

  /** Why one line cannot be turned into a command. */
  datatype LineError = CountNotInteger(err: NumError) | NoNameField

  /** Why reading aborts: the first bad line (counted from zero) and what is wrong with it. */
  datatype ReadError = ReadError(line: nat, cause: LineError)

  /** `bufio.dropCR`: removes one final carriage return, and nothing else. */
  function DropCR(line: string): (r: string)
    ensures r <= line && |line| <= |r| + 1
    ensures |r| < |line| <==> |line| > 0 && line[|line| - 1] == '\r'
  {
    if |line| > 0 && line[|line| - 1] == '\r' then line[..|line| - 1] else line
  }

  /**
   * `bufio.ScanLines`: the pieces between newlines, each without a final
   * carriage return; a last piece without a newline is a line, an empty
   * remainder after the last newline is not.
   */
  function ScanLines(content: string): (lines: seq<string>)
    ensures forall i :: 0 <= i < |lines| ==> '\n' !in lines[i]
    ensures content == [] <==> lines == []
    ensures '\r' !in content ==> content == Join(lines, '\n') || content == Join(lines, '\n') + "\n"
    decreases |content|
  {
    if content == [] then []
    else if '\n' !in content then
      assert DropCR(content) <= content;
      [DropCR(content)]
    else
      var i := IndexOf(content, '\n');
      var line, rest := DropCR(content[..i]), ScanLines(content[i + 1..]);
      assert line <= content[..i];
      LinesStep(content, i, line, rest);
      [line] + rest
  }

  /** The join property of `ScanLines` carries over one more line. */
  lemma LinesStep(content: string, i: nat, line: string, rest: seq<string>)
    requires i < |content| && content[i] == '\n' && '\n' !in content[..i]
    requires '\r' !in content ==> line == content[..i]
    requires content[i + 1..] == [] <==> rest == []
    requires '\r' !in content[i + 1..] ==>
      content[i + 1..] == Join(rest, '\n') || content[i + 1..] == Join(rest, '\n') + "\n"
    ensures '\r' !in content ==>
      content == Join([line] + rest, '\n') || content == Join([line] + rest, '\n') + "\n"
  {
    if '\r' !in content {
      assert content == content[..i] + "\n" + content[i + 1..];
      var tail := content[i + 1..];
      assert '\r' !in tail by {
        forall k | 0 <= k < |tail| ensures tail[k] != '\r' {
          assert tail[k] == content[i + 1 + k];
        }
      }
      assert ([line] + rest)[1..] == rest;
    }
  }

  /**
   * One line of the history file: trimmed, cut at every tab, the first field
   * parsed as a base-10 64-bit integer and stored as `uint64`, the second
   * taken as the name. Fields after the second are ignored.
   */
  function ParseRecord(line: string): (r: Result<Record, LineError>)
    ensures r.Ok? ==> '\t' !in r.value.name
    ensures r.Err? && r.error == NoNameField ==> '\t' !in TrimSpace(line)
    ensures '\t' !in TrimSpace(line) ==> r.Err?
    ensures ParseInt(Split(TrimSpace(line), '\t')[0]).Err? ==> r.Err? && r.error.CountNotInteger?
    ensures r.Ok? ==>
      var fields := Split(TrimSpace(line), '\t');
      && |fields| >= 2 && ParseInt(fields[0]).Ok?
      && r.value == Record(fields[1], ToU64(ParseInt(fields[0]).value))
  {
    var fields := Split(TrimSpace(line), '\t');
    match ParseInt(fields[0])
    case Err(e) => Err(CountNotInteger(e))
    case Ok(n) =>
      if |fields| < 2 then
        assert Join(fields, '\t') == fields[0];
        Err(NoNameField)
      else Ok(Record(fields[1], ToU64(n)))
  }

  /** Each line's own outcome, in line order. */
  function Parsed(lines: seq<string>): (results: seq<Result<Record, LineError>>)
    ensures |results| == |lines|
  {
    seq(|lines|, k requires 0 <= k < |lines| => ParseRecord(lines[k]))
  }

  /**
   * The outcome of reading the first `n` lines in order, given each line's
   * own outcome: all their records when every one parses, otherwise the
   * first failing line and its cause.
   */
  function Collect(results: seq<Result<Record, LineError>>, n: nat): (r: Result<seq<Record>, ReadError>)
    requires n <= |results|
    ensures r.Ok? ==> |r.value| == n
    ensures r.Err? ==> r.error.line < n
  {
    if n == 0 then Ok([])
    else
      match Collect(results, n - 1)
      case Err(e) => Err(e)
      case Ok(done) =>
        match results[n - 1]
        case Err(cause) => Err(ReadError(n - 1, cause))
        case Ok(rec) => Ok(done + [rec])
  }

  /** Record `i` of a successful read is line `i`'s record. */
  lemma {:induction false} CollectAt(results: seq<Result<Record, LineError>>, n: nat, i: nat)
    requires n <= |results| && Collect(results, n).Ok? && i < n
    ensures results[i] == Ok(Collect(results, n).value[i])
  {
    if i < n - 1 {
      CollectAt(results, n - 1, i);
    }
  }

  /** A successful read holds each line's record, in line order. */
  lemma CollectOk(results: seq<Result<Record, LineError>>, n: nat)
    requires n <= |results| && Collect(results, n).Ok?
    ensures forall i :: 0 <= i < n ==> results[i] == Ok(Collect(results, n).value[i])
  {
    forall i | 0 <= i < n ensures results[i] == Ok(Collect(results, n).value[i]) {
      CollectAt(results, n, i);
    }
  }

  /** A failed read stops at a line that does not parse, after lines that all read. */
  lemma {:induction false} CollectStop(results: seq<Result<Record, LineError>>, n: nat)
    requires n <= |results| && Collect(results, n).Err?
    ensures var e := Collect(results, n).error;
      && e.line < n && results[e.line] == Err(e.cause) && Collect(results, e.line).Ok?
  {
    if Collect(results, n - 1).Err? {
      CollectStop(results, n - 1);
    }
  }

  /** A failed read names the first line that does not parse, and why. */
  lemma CollectFirstError(results: seq<Result<Record, LineError>>, n: nat)
    requires n <= |results| && Collect(results, n).Err?
    ensures var e := Collect(results, n).error;
      && e.line < n && results[e.line] == Err(e.cause)
      && forall i :: 0 <= i < e.line ==> results[i].Ok?
  {
    CollectStop(results, n);
    var e := Collect(results, n).error;
    forall i | 0 <= i < e.line ensures results[i].Ok? {
      CollectAt(results, e.line, i);
    }
  }

  /** When every line parses, the read succeeds. */
  lemma {:induction false} CollectAllOk(results: seq<Result<Record, LineError>>, n: nat)
    requires n <= |results| && forall i :: 0 <= i < n ==> results[i].Ok?
    ensures Collect(results, n).Ok?
  {
    if n > 0 {
      CollectAllOk(results, n - 1);
    }
  }

  /** A failed line fails the whole read, whatever follows it. */
  lemma {:induction false} CollectErr(results: seq<Result<Record, LineError>>, k: nat, n: nat)
    requires k <= n <= |results| && Collect(results, k).Err?
    ensures Collect(results, n) == Collect(results, k)
    decreases n
  {
    if k < n {
      CollectErr(results, k, n - 1);
    }
  }

  /** The records a history file holds, or why it cannot be read. */
  function ParseHistory(content: string): (r: Result<seq<Record>, ReadError>)
    ensures r.Ok? ==> |r.value| == |ScanLines(content)|
    ensures r.Err? ==> r.error.line < |ScanLines(content)|
  {
    var lines := ScanLines(content);
    Collect(Parsed(lines), |lines|)
  }

  /**
   * `readHistory`: `None` stands for a file that cannot be opened, which
   * gives no commands. Otherwise every line becomes a fresh command, and the
   * result is ranked by calls, highest first; the first malformed line aborts
   * the read (the source panics there).
   */
  method ReadHistory(file: Option<string>) returns (r: Result<seq<Command>, ReadError>)
    ensures file.None? ==> r == Ok([])
    ensures file.Some? ==> (r.Err? <==> ParseHistory(file.value).Err?)
    ensures file.Some? && r.Err? ==> r.error == ParseHistory(file.value).error
    ensures r.Ok? ==> Distinct(r.value) && forall c :: c in r.value ==> fresh(c)
    ensures r.Ok? && file.Some? ==>
      multiset(Snapshot(r.value)) == multiset(ParseHistory(file.value).value)
    ensures r.Ok? ==> NonIncreasing(Snapshot(r.value))
  {
    if file.None? {
      return Ok([]);
    }
    var history := ReadCommands(Parsed(ScanLines(file.value)));
    match history
    case Err(e) =>
      r := Err(e);
    case Ok(cs) =>
      var ranked := Rank(cs);
      r := Ok(ranked);
  }

  /**
   * The scan loop of `readHistory`, fed the outcome of parsing each line in
   * file order: a fresh command per record, until the first line that does
   * not parse aborts the read.
   */
  method ReadCommands(results: seq<Result<Record, LineError>>) returns (r: Result<seq<Command>, ReadError>)
    ensures r.Err? <==> Collect(results, |results|).Err?
    ensures r.Err? ==> r.error == Collect(results, |results|).error
    ensures r.Ok? ==> Snapshot(r.value) == Collect(results, |results|).value
    ensures r.Ok? ==> (forall c :: c in r.value ==> fresh(c)) && forall c :: multiset(r.value)[c] <= 1
  {
    var history: seq<Command> := [];
    assert Snapshot(history) == [];
    for i := 0 to |results|
      invariant Collect(results, i) == Ok(Snapshot(history))
      invariant forall c :: c in history ==> fresh(c)
      invariant forall c :: multiset(history)[c] <= 1
    {
      var rec := results[i];
      if rec.Err? {
        CollectErr(results, i + 1, |results|);
        return Err(ReadError(i, rec.error));
      }
      ghost var done := Snapshot(history);
      var c := new Command(rec.value.name, rec.value.calls);
      assert Snapshot(history) == done;
      SnapshotAppend(history, [c]);
      assert Snapshot([c]) == [rec.value];
      history := history + [c];
    }
    r := Ok(history);
  }

  /** `sort.Sort(sort.Reverse(ByScore{history}))` on freshly read commands. */
  method Rank(history: seq<Command>) returns (ranked: seq<Command>)
    requires forall c :: multiset(history)[c] <= 1
    ensures multiset(ranked) == multiset(history)
    ensures forall c :: c in ranked ==> c in history
    ensures Distinct(ranked)
    ensures multiset(Snapshot(ranked)) == multiset(Snapshot(history))
    ensures NonIncreasing(Snapshot(ranked))
  {
    var a := new Command[|history|](k requires 0 <= k < |history| => history[k]);
    assert a[..] == history;
    SortByScore(a, true);
    ranked := a[..];
    assert forall c :: c in ranked ==> c in multiset(history);
    SnapshotPermutation(ranked, history);
    DistinctFromMultiset(ranked);
  }

  // ------------------------------------------------------------------ writing

  /** One history line: `"%d\t%s\n"` of calls and name. */
  function Format(r: Record): string {
    Decimal(r.calls as nat) + "\t" + r.name + "\n"
  }

  /** The whole file: every record's line, in order. */
  function Render(rs: seq<Record>): string {
    if rs == [] then "" else Render(rs[..|rs| - 1]) + Format(rs[|rs| - 1])
  }

  /** The position of the first record named `name`, if any. */
  function FirstMatch(rs: seq<Record>, name: string): (m: Option<nat>)
    ensures m.Some? ==> m.value < |rs| && rs[m.value].name == name
    ensures m.Some? ==> forall k :: 0 <= k < m.value ==> rs[k].name != name
    ensures m.None? ==> forall k :: 0 <= k < |rs| ==> rs[k].name != name
  {
    if rs == [] then None
    else if rs[0].name == name then Some(0)
    else match FirstMatch(rs[1..], name)
      case None => None
      case Some(k) => Some(k + 1)
  }

  /**
   * The commands after `writeHistory` has recorded a launch of `last`: the
   * first command of that name, and no other, gains one call. An empty
   * `last` records nothing.
   */
  function Increment(rs: seq<Record>, last: string): (r: seq<Record>)
    ensures |r| == |rs|
    ensures forall k :: 0 <= k < |rs| ==> r[k].name == rs[k].name
    ensures last == "" ==> r == rs
  {
    match FirstMatch(rs, last)
    case None => rs
    case Some(m) => if last == "" then rs else rs[m := Record(rs[m].name, Inc(rs[m].calls))]
  }

  /**
   * A recorded launch adds one call to the first command of that name and
   * leaves every other count as it was.
   */
  lemma IncrementFirstOnly(rs: seq<Record>, last: string)
    requires last != ""
    ensures forall k :: 0 <= k < |rs| ==>
      Increment(rs, last)[k].calls
        == (if rs[k].name == last && (forall p :: 0 <= p < k ==> rs[p].name != last)
            then Inc(rs[k].calls) else rs[k].calls)
  {
  }

  /**
   * The records `writeHistory` writes: the incremented commands in their
   * given order (not re-ranked), then a new command with one call when no
   * command was named `last`.
   */
  function Written(rs: seq<Record>, last: string): (r: seq<Record>)
    ensures |r| >= |rs| && r[..|rs|] == Increment(rs, last)
    ensures |r| == |rs| + 1 <==> last != "" && forall k :: 0 <= k < |rs| ==> rs[k].name != last
    ensures |r| == |rs| || |r| == |rs| + 1
    ensures |r| == |rs| + 1 ==> r[|rs|] == Record(last, 1)
  {
    var inc := Increment(rs, last);
    if last != "" && FirstMatch(rs, last).None? then inc + [Record(last, 1)] else inc
  }

  /**
   * `writeHistory(path, commands, lastCommand)`: walks the commands in the
   * order given, adds a call to the first one named `lastCommand` (in place,
   * so the caller sees it), writes a line for each, and appends a line for a
   * new command with one call when none matched. Returns the text written.
   */
  method WriteHistory(cs: seq<Command>, lastCommand: string) returns (out: string)
    requires Distinct(cs)
    modifies cs
    ensures Snapshot(cs) == Increment(old(Snapshot(cs)), lastCommand)
    ensures out == Render(Written(old(Snapshot(cs)), lastCommand))
  {
    ghost var before := Snapshot(cs);
    var last;
    out, last := WriteLines(cs, lastCommand, before);
    SweepIsIncrement(before, lastCommand);
    SnapshotFields(cs, Increment(before, lastCommand));
    RenderWritten(before, lastCommand);
    if last != "" {
      out := out + Format(Record(last, 1));
    }
  }

  /**
   * The loop of `writeHistory` over commands whose values are `rs`: each
   * command takes the value of its turn, and the text is every turn's line.
   * What is left of `lastCommand` is returned.
   */
  method WriteLines(cs: seq<Command>, lastCommand: string, ghost rs: seq<Record>) returns (out: string, last: string)
    requires Distinct(cs) && |rs| == |cs|
    requires forall k :: 0 <= k < |cs| ==> cs[k].View() == rs[k]
    modifies cs
    ensures forall k :: 0 <= k < |cs| ==> cs[k].View() == Turn(rs, lastCommand, k)
    ensures out == Emitted(rs, lastCommand, |cs|) && last == Pending(rs, lastCommand, |cs|)
  {
    last := lastCommand;
    out := "";
    for i := 0 to |cs|
      invariant forall k :: 0 <= k < i ==> cs[k].View() == Turn(rs, lastCommand, k)
      invariant forall k :: i <= k < |cs| ==> cs[k].View() == rs[k]
      invariant last == Pending(rs, lastCommand, i)
      invariant out == Emitted(rs, lastCommand, i)
    {
      var line;
      line, last := WriteCommand(cs[i], last, Turn(rs, lastCommand, i));
      out := out + line;
    }
  }

  /** `lastCommand` once the loop has passed the first `n` commands: the first match uses it up. */
  function Pending(rs: seq<Record>, last: string, n: nat): string
    requires n <= |rs|
  {
    if n == 0 then last
    else
      var p := Pending(rs, last, n - 1);
      if p != "" && rs[n - 1].name == p then "" else p
  }

  /** Command `k` once the loop has passed it. */
  function Turn(rs: seq<Record>, last: string, k: nat): Record
    requires k < |rs|
  {
    var p := Pending(rs, last, k);
    if p != "" && rs[k].name == p then Record(rs[k].name, Inc(rs[k].calls)) else rs[k]
  }

  /** The text the loop has written once it has passed the first `n` commands. */
  function Emitted(rs: seq<Record>, last: string, n: nat): string
    requires n <= |rs|
  {
    if n == 0 then "" else Emitted(rs, last, n - 1) + Format(Turn(rs, last, n - 1))
  }

  /** The launch is pending until the first command of that name has been passed. */
  lemma {:induction false} PendingFirstMatch(rs: seq<Record>, last: string, n: nat)
    requires n <= |rs|
    ensures var m := FirstMatch(rs, last);
      Pending(rs, last, n) == if m.Some? && m.value < n then "" else last
  {
    if n > 0 {
      PendingFirstMatch(rs, last, n - 1);
      IncrementAt(rs, last, n - 1);
    }
  }

  lemma TurnIsIncrement(rs: seq<Record>, last: string, k: nat)
    requires k < |rs|
    ensures Turn(rs, last, k) == Increment(rs, last)[k]
  {
    PendingFirstMatch(rs, last, k);
    IncrementAt(rs, last, k);
  }

  /** The loop's text is the lines of whatever records its turns produced. */
  lemma {:induction false} EmittedLines(rs: seq<Record>, last: string, ts: seq<Record>, n: nat)
    requires n <= |rs| == |ts|
    requires forall k :: 0 <= k < n ==> Turn(rs, last, k) == ts[k]
    ensures Emitted(rs, last, n) == Render(ts[..n])
  {
    if n > 0 {
      EmittedLines(rs, last, ts, n - 1);
      assert ts[..n][..n - 1] == ts[..n - 1];
    }
  }

  /**
   * The `writeHistory` loop, step by step, adds one call to the first command
   * named `last` and no other, writes the incremented commands' lines, and
   * leaves the launch pending exactly when no command had that name.
   */
  lemma SweepIsIncrement(rs: seq<Record>, last: string)
    ensures forall k :: 0 <= k < |rs| ==> Turn(rs, last, k) == Increment(rs, last)[k]
    ensures Emitted(rs, last, |rs|) == Render(Increment(rs, last))
    ensures Pending(rs, last, |rs|) == if last != "" && FirstMatch(rs, last).None? then last else ""
  {
    forall k | 0 <= k < |rs| ensures Turn(rs, last, k) == Increment(rs, last)[k] {
      TurnIsIncrement(rs, last, k);
    }
    EmittedLines(rs, last, Increment(rs, last), |rs|);
    assert Increment(rs, last)[..|rs|] == Increment(rs, last);
    PendingFirstMatch(rs, last, |rs|);
  }

  /**
   * One turn of the `writeHistory` loop: the command gains a call when it is
   * the one launched (and the launch is then used up), and its line is written.
   */
  method WriteCommand(c: Command, last: string, ghost expected: Record) returns (line: string, rest: string)
    requires expected == if last != "" && c.name == last then Record(c.name, Inc(c.calls)) else c.View()
    modifies c
    ensures c.View() == expected && line == Format(expected)
    ensures rest == if last != "" && c.name == last then "" else last
  {
    rest := last;
    if last != "" && c.name == last {
      c.calls := Inc(c.calls);
      rest := "";
    }
    line := Format(c.View());
  }

  /** Record `i` after the increment, while no earlier record has matched. */
  lemma IncrementAt(rs: seq<Record>, last: string, i: nat)
    requires i < |rs|
    ensures var m := FirstMatch(rs, last);
      !(m.Some? && m.value < i) ==>
        && (last != "" && rs[i].name == last <==> last != "" && m == Some(i))
        && Increment(rs, last)[i]
           == (if last != "" && rs[i].name == last then Record(rs[i].name, Inc(rs[i].calls)) else rs[i])
  {
    var m := FirstMatch(rs, last);
    if !(m.Some? && m.value < i) && last != "" && rs[i].name == last {
      assert m == Some(i);
    }
  }

  /** The written file: the incremented commands' lines, then the new command's line if any. */
  lemma RenderWritten(rs: seq<Record>, last: string)
    ensures Render(Written(rs, last)) == Render(Increment(rs, last))
      + (if last != "" && FirstMatch(rs, last).None? then Format(Record(last, 1)) else "")
  {
    var inc := Increment(rs, last);
    if last != "" && FirstMatch(rs, last).None? {
      var w := inc + [Record(last, 1)];
      assert w[..|w| - 1] == inc;
    }
  }

  // --------------------------------------------------------------- properties

  /** A record that a write followed by a read reproduces exactly. */
  predicate Storable(r: Record) {
    && r.calls as int <= MaxInt64
    && |r.name| > 0
    && '\t' !in r.name && '\n' !in r.name
    && !IsSpace(r.name[|r.name| - 1])
  }

  /** A history line without its newline. */
  function Line(r: Record): string {
    Decimal(r.calls as nat) + "\t" + r.name
  }

  function Lines(rs: seq<Record>): (lines: seq<string>)
    ensures |lines| == |rs|
  {
    seq(|rs|, k requires 0 <= k < |rs| => Line(rs[k]))
  }

  lemma ParseRecordLine(r: Record)
    requires Storable(r)
    ensures ParseRecord(Line(r)) == Ok(r)
  {
    var d := Decimal(r.calls as nat);
    var line := Line(r);
    assert line == Join([d, r.name], '\t');
    assert line[0] == d[0] && IsDigit(d[0]);
    assert line[|line| - 1] == r.name[|r.name| - 1];
    TrimSpaceKeeps(line);
    assert '\t' !in d by {
      forall i | 0 <= i < |d| ensures d[i] != '\t' { assert IsDigit(d[i]); }
    }
    SplitJoin([d, r.name], '\t');
    ParseIntDecimal(r.calls as nat);
  }

  lemma {:induction false} RenderAppend(a: seq<Record>, b: seq<Record>)
    ensures Render(a + b) == Render(a) + Render(b)
    decreases |b|
  {
    if b == [] {
      assert a + b == a;
    } else {
      var n := |b| - 1;
      var b' := b[..n];
      assert (a + b)[..|a + b| - 1] == a + b';
      assert (a + b)[|a + b| - 1] == b[n];
      RenderAppend(a, b');
      calc {
        Render(a + b);
        Render(a + b') + Format(b[n]);
        (Render(a) + Render(b')) + Format(b[n]);
        Render(a) + (Render(b') + Format(b[n]));
        Render(a) + Render(b);
      }
    }
  }

  lemma ScanLinesFormat(r: Record, rest: string)
    requires Storable(r)
    ensures ScanLines(Format(r) + rest) == [Line(r)] + ScanLines(rest)
  {
    var d := Decimal(r.calls as nat);
    var line := Line(r);
    assert '\n' !in line by {
      forall i | 0 <= i < |line| ensures line[i] != '\n' {
        if i < |d| { assert IsDigit(d[i]); }
      }
    }
    var s := Format(r) + rest;
    assert s == line + ['\n'] + rest;
    IndexOfJoin(line, '\n', rest);
    assert s[..|line|] == line && s[|line| + 1..] == rest;
    assert DropCR(line) == line;
  }

  lemma RenderCons(r: Record, rs: seq<Record>)
    ensures Render([r] + rs) == Format(r) + Render(rs)
  {
    RenderAppend([r], rs);
    assert [r][..0] == [];
  }

  lemma LinesCons(r: Record, rs: seq<Record>)
    ensures Lines([r] + rs) == [Line(r)] + Lines(rs)
  {
    var l, m := Lines([r] + rs), [Line(r)] + Lines(rs);
    forall k | 0 <= k < |l| ensures l[k] == m[k] {
      if k > 0 { assert ([r] + rs)[k] == rs[k - 1]; }
    }
  }

  lemma {:induction false} ScanLinesRender(rs: seq<Record>)
    requires forall k :: 0 <= k < |rs| ==> Storable(rs[k])
    ensures ScanLines(Render(rs)) == Lines(rs)
    decreases |rs|
  {
    if rs == [] {
      assert Lines(rs) == [];
    } else {
      var head, tail := rs[0], rs[1..];
      assert rs == [head] + tail;
      var rendered, t := Render(rs), Render(tail);
      assert rendered == Format(head) + t by {
        RenderCons(head, tail);
      }
      ScanLinesFormat(head, t);
      ScanLinesRender(tail);
      LinesCons(head, tail);
    }
  }

  /**
   * Reading back a rendered history gives exactly the records written, in
   * the order written, provided each name is a non-empty run free of tabs
   * and newlines that does not end in white space and each count fits `int64`.
   */
  lemma WriteThenRead(rs: seq<Record>)
    requires forall k :: 0 <= k < |rs| ==> Storable(rs[k])
    ensures ParseHistory(Render(rs)) == Ok(rs)
  {
    ScanLinesRender(rs);
    var lines := Lines(rs);
    var results := Parsed(lines);
    forall k | 0 <= k < |rs| ensures results[k] == Ok(rs[k]) {
      ParseRecordLine(rs[k]);
    }
    CollectAllOk(results, |rs|);
    CollectOk(results, |rs|);
    var c := Collect(results, |rs|);
    assert c.value == rs;
  }

  /**
   * What `writeHistory` writes is what the next `readHistory` reads: the
   * commands, the recorded launch included, before they are ranked again.
   */
  lemma WrittenReadsBack(rs: seq<Record>, last: string)
    requires forall k :: 0 <= k < |rs| ==> Storable(rs[k]) && rs[k].calls as int < MaxInt64
    requires last == "" || Storable(Record(last, 1))
    ensures ParseHistory(Render(Written(rs, last))) == Ok(Written(rs, last))
  {
    var w := Written(rs, last);
    forall k | 0 <= k < |w| ensures Storable(w[k]) {
      if k < |rs| {
        assert w[k] == Increment(rs, last)[k];
      }
    }
    WriteThenRead(w);
  }

  /** The sum of all counts. */
  function TotalCalls(rs: seq<Record>): int {
    if rs == [] then 0 else TotalCalls(rs[..|rs| - 1]) + rs[|rs| - 1].calls as int
  }

  lemma {:induction false} TotalCallsUpdate(rs: seq<Record>, m: nat, x: Record)
    requires m < |rs|
    ensures TotalCalls(rs[m := x]) == TotalCalls(rs) - rs[m].calls as int + x.calls as int
    decreases |rs|
  {
    var n := |rs| - 1;
    if m < n {
      assert rs[m := x][..n] == rs[..n][m := x];
      TotalCallsUpdate(rs[..n], m, x);
    } else {
      assert rs[m := x][..n] == rs[..n];
    }
  }

  /**
   * Each write records exactly one launch: the counts written add up to one
   * more than before (as long as no count is at the `uint64` ceiling).
   */
  lemma WrittenRecordsOneLaunch(rs: seq<Record>, last: string)
    requires last != ""
    requires forall k :: 0 <= k < |rs| ==> rs[k].calls as int < TwoTo64 - 1
    ensures TotalCalls(Written(rs, last)) == TotalCalls(rs) + 1
  {
    match FirstMatch(rs, last)
    case Some(m) =>
      assert Written(rs, last) == rs[m := Record(rs[m].name, Inc(rs[m].calls))];
      TotalCallsUpdate(rs, m, Record(rs[m].name, Inc(rs[m].calls)));
    case None =>
      var w := Written(rs, last);
      assert w == rs + [Record(last, 1)];
      assert w[..|w| - 1] == rs;
  }

  /** No two records share a name. */
  predicate UniqueNames(rs: seq<Record>) {
    forall i, j :: 0 <= i < j < |rs| ==> rs[i].name != rs[j].name
  }

  /** A store with one record per name keeps that property across a write. */
  lemma WrittenKeepsNamesUnique(rs: seq<Record>, last: string)
    requires UniqueNames(rs)
    ensures UniqueNames(Written(rs, last))
  {
    var w := Written(rs, last);
    forall i, j | 0 <= i < j < |w| ensures w[i].name != w[j].name {
      assert w[i].name == rs[i].name by { assert w[i] == Increment(rs, last)[i]; }
      if j < |rs| {
        assert w[j] == Increment(rs, last)[j];
      }
    }
  }

  /**
   * Two launches, "vim" then "nano", recorded over the same commands: the
   * second write sees the first one's increment, and appends "nano".
   */
  lemma WriteHistoryExample()
    ensures Increment([Record("emacs", 3), Record("vim", 2)], "vim") == [Record("emacs", 3), Record("vim", 3)]
    ensures Render(Written([Record("emacs", 3), Record("vim", 3)], "nano")) == "3\temacs\n3\tvim\n1\tnano\n"
  {
    var rs := [Record("emacs", 3), Record("vim", 3)];
    assert FirstMatch(rs, "nano") == None;
    var w := Written(rs, "nano");
    assert w == [Record("emacs", 3), Record("vim", 3), Record("nano", 1)];
    RenderThree(w[0], w[1], w[2]);
    FormatExamples();
  }

  lemma RenderThree(a: Record, b: Record, c: Record)
    ensures Render([a, b, c]) == Format(a) + Format(b) + Format(c)
  {
    var w := [a, b, c];
    assert w[..2] == [a, b] && [a, b][..1] == [a] && [a][..0] == [];
    assert Render([a]) == Format(a);
    assert Render([a, b]) == Format(a) + Format(b);
  }

  /** The line of a count below ten: one digit, a tab, the name, a newline. */
  lemma FormatDigit(r: Record)
    requires r.calls < 10
    ensures Format(r) == [DigitChar(r.calls as nat), '\t'] + r.name + ['\n']
  {
  }

  lemma FormatExamples()
    ensures Format(Record("emacs", 3)) + Format(Record("vim", 3)) + Format(Record("nano", 1))
         == "3\temacs\n3\tvim\n1\tnano\n"
  {
    var a, b, c := Format(Record("emacs", 3)), Format(Record("vim", 3)), Format(Record("nano", 1));
    assert a == "3\temacs\n" by { FormatDigit(Record("emacs", 3)); }
    assert b == "3\tvim\n" by { FormatDigit(Record("vim", 3)); }
    assert c == "1\tnano\n" by { FormatDigit(Record("nano", 1)); }
  }

  /** The file "2\tvim\n3\temacs\n1\tnano\n" reads as its three lines' records, in file order. */
  lemma ReadHistoryExample(content: string)
    requires content == "2\tvim\n3\temacs\n1\tnano\n"
    ensures ParseHistory(content) == Ok([Record("vim", 2), Record("emacs", 3), Record("nano", 1)])
  {
    var rs := [Record("vim", 2), Record("emacs", 3), Record("nano", 1)];
    ExampleRender(rs);
    ExampleStorable(rs);
    WriteThenRead(rs);
  }

  lemma ExampleRender(rs: seq<Record>)
    requires rs == [Record("vim", 2), Record("emacs", 3), Record("nano", 1)]
    ensures Render(rs) == "2\tvim\n3\temacs\n1\tnano\n"
  {
    RenderThree(rs[0], rs[1], rs[2]);
    ExampleLines(rs);
  }

  lemma ExampleLines(rs: seq<Record>)
    requires rs == [Record("vim", 2), Record("emacs", 3), Record("nano", 1)]
    ensures Format(rs[0]) == "2\tvim\n" && Format(rs[1]) == "3\temacs\n" && Format(rs[2]) == "1\tnano\n"
  {
    FormatDigit(rs[0]);
    FormatDigit(rs[1]);
    FormatDigit(rs[2]);
  }

  lemma ExampleStorable(rs: seq<Record>)
    requires rs == [Record("vim", 2), Record("emacs", 3), Record("nano", 1)]
    ensures forall k :: 0 <= k < |rs| ==> Storable(rs[k])
  {
    assert !IsSpace('m') && !IsSpace('s') && !IsSpace('o');
  }

  /** Any ranking of those records by descending count is emacs 3, vim 2, nano 1. */
  lemma RankExample(ranked: seq<Record>)
    requires multiset(ranked) == multiset([Record("vim", 2), Record("emacs", 3), Record("nano", 1)])
    requires NonIncreasing(ranked)
    ensures ranked == [Record("emacs", 3), Record("vim", 2), Record("nano", 1)]
  {
    RankThree(ranked, Record("emacs", 3), Record("vim", 2), Record("nano", 1));
  }

  /** Three records with strictly falling counts have one non-increasing order. */
  lemma RankThree(ranked: seq<Record>, a: Record, b: Record, c: Record)
    requires a.calls > b.calls > c.calls
    requires multiset(ranked) == multiset([b, a, c])
    requires NonIncreasing(ranked)
    ensures ranked == [a, b, c]
  {
    assert |ranked| == 3 by { assert |multiset(ranked)| == |multiset([b, a, c])|; }
    assert a in ranked && b in ranked && c in ranked by {
      assert a in multiset(ranked) && b in multiset(ranked) && c in multiset(ranked);
    }
  }

  // ---------------------------------------------------------------- finding

  /**
   * The update loop of `writeHistory` as the source writes it: after the
   * first match the target is cleared to "", which a later command whose name
   * is "" then matches as well.
   */
  function IncrementAsWritten(rs: seq<Record>, target: string): (r: seq<Record>)
    ensures |r| == |rs|
  {
    if rs == [] then []
    else if rs[0].name == target then [Record(rs[0].name, Inc(rs[0].calls))] + IncrementAsWritten(rs[1..], "")
    else [rs[0]] + IncrementAsWritten(rs[1..], target)
  }

  /** The value of `lastCommand` once the loop is over. */
  function PendingAsWritten(rs: seq<Record>, target: string): (r: string)
    ensures r == target || r == ""
    ensures target != "" && (forall k :: 0 <= k < |rs| ==> rs[k].name != target) ==> r == target
  {
    if rs == [] then target
    else if rs[0].name == target then PendingAsWritten(rs[1..], "")
    else PendingAsWritten(rs[1..], target)
  }

  function WrittenAsWritten(rs: seq<Record>, target: string): (r: seq<Record>)
    ensures |r| == |rs| || |r| == |rs| + 1
    ensures r[..|rs|] == IncrementAsWritten(rs, target)
  {
    var pending := PendingAsWritten(rs, target);
    IncrementAsWritten(rs, target) + (if pending != "" then [Record(pending, 1)] else [])
  }

  lemma SplitEmptyField()
    ensures Split("4\t\tx", '\t') == ["4", "", "x"]
  {
    var tail: seq<string> := ["", "x"];
    assert tail[1..] == ["x"];
    assert Join(tail[1..], '\t') == "x";
    assert Join(tail, '\t') == tail[0] + ['\t'] + Join(tail[1..], '\t');
    var parts: seq<string> := ["4", "", "x"];
    assert parts[1..] == tail;
    assert Join(parts, '\t') == parts[0] + ['\t'] + Join(tail, '\t') == "4\t\tx";
    SplitJoin(parts, '\t');
  }

  /** The line "4\t\tx" reads as a command named "". */
  lemma EmptyNameReadable()
    ensures ParseRecord("4\t\tx") == Ok(Record("", 4))
  {
    EmptyNameLine("4\t\tx", "4");
  }

  lemma EmptyNameLine(line: string, count: string)
    requires line == "4\t\tx" && count == "4"
    ensures ParseRecord(line) == Ok(Record("", 4))
  {
    EmptyNameFields(line, count);
    CountFour(count);
    ParseRecordFields(line, [count, "", "x"], 4);
  }

  lemma EmptyNameFields(line: string, count: string)
    requires line == "4\t\tx" && count == "4"
    ensures Split(TrimSpace(line), '\t') == [count, "", "x"]
  {
    assert TrimSpace(line) == line by {
      assert !IsSpace(line[0]) && !IsSpace(line[|line| - 1]);
      TrimSpaceKeeps(line);
    }
    SplitEmptyField();
  }

  lemma CountFour(count: string)
    requires count == "4"
    ensures ParseInt(count) == Ok(4) && ToU64(4) == 4
  {
    assert Decimal(4) == count;
    ParseIntDecimal(4);
  }

  /** A line whose trimmed fields start with a count and a name reads as that record. */
  lemma ParseRecordFields(line: string, fields: seq<string>, n: int)
    requires Split(TrimSpace(line), '\t') == fields && |fields| >= 2
    requires ParseInt(fields[0]) == Ok(n)
    ensures ParseRecord(line) == Ok(Record(fields[1], ToU64(n)))
  {
  }

  /**
   * Launching "vim" from a history holding vim and then a command named ""
   * increments both as written, where one launch should add one call.
   */
  lemma AsWrittenIncrementsTwice()
    ensures IncrementAsWritten([Record("vim", 5), Record("", 4)], "vim") == [Record("vim", 6), Record("", 5)]
    ensures Increment([Record("vim", 5), Record("", 4)], "vim") == [Record("vim", 6), Record("", 4)]
  {
    var rs := [Record("vim", 5), Record("", 4)];
    assert rs[1..] == [Record("", 4)];
    assert rs[1..][1..] == [];
    assert IncrementAsWritten(rs[1..], "") == [Record("", 5)];
    assert FirstMatch(rs, "vim") == Some(0);
  }

  lemma {:induction false} AsWrittenUntouched(rs: seq<Record>)
    requires forall k :: 0 <= k < |rs| ==> rs[k].name != ""
    ensures IncrementAsWritten(rs, "") == rs && PendingAsWritten(rs, "") == ""
    decreases |rs|
  {
    if rs != [] {
      AsWrittenUntouched(rs[1..]);
      assert rs == [rs[0]] + rs[1..];
    }
  }

  /** Past a command of another name, the update works on the rest. */
  lemma IncrementSkips(rs: seq<Record>, last: string)
    requires |rs| > 0 && rs[0].name != last
    ensures Increment(rs, last) == [rs[0]] + Increment(rs[1..], last)
    ensures FirstMatch(rs, last).None? <==> FirstMatch(rs[1..], last).None?
  {
    var tail := rs[1..];
    match FirstMatch(tail, last)
    case None =>
      assert FirstMatch(rs, last) == None;
      assert rs == [rs[0]] + tail;
    case Some(k) =>
      assert FirstMatch(rs, last) == Some(k + 1);
      if last != "" {
        assert rs[k + 1 := Record(rs[k + 1].name, Inc(rs[k + 1].calls))]
            == [rs[0]] + tail[k := Record(tail[k].name, Inc(tail[k].calls))];
      } else {
        assert rs == [rs[0]] + tail;
      }
  }

  /**
   * The as-written loop and the corrected one agree whenever a launch is
   * recorded (`lastCommand` is never empty there) and no command is named "".
   */
  lemma {:induction false} AsWrittenAgrees(rs: seq<Record>, last: string)
    requires last != ""
    requires forall k :: 0 <= k < |rs| ==> rs[k].name != ""
    ensures WrittenAsWritten(rs, last) == Written(rs, last)
    decreases |rs|
  {
    if rs == [] {
    } else if rs[0].name == last {
      AsWrittenHit(rs, last);
    } else {
      AsWrittenAgrees(rs[1..], last);
      WrittenSkips(rs, last);
      AsWrittenSkips(rs, last);
    }
  }

  /** When the first command is the one launched, neither loop touches the rest. */
  lemma AsWrittenHit(rs: seq<Record>, last: string)
    requires |rs| > 0 && rs[0].name == last != ""
    requires forall k :: 0 <= k < |rs| ==> rs[k].name != ""
    ensures WrittenAsWritten(rs, last) == Written(rs, last)
  {
    AsWrittenHead(rs, last);
    WrittenHead(rs, last);
  }

  lemma AsWrittenHead(rs: seq<Record>, last: string)
    requires |rs| > 0 && rs[0].name == last
    requires forall k :: 0 <= k < |rs| ==> rs[k].name != ""
    ensures WrittenAsWritten(rs, last) == [Record(rs[0].name, Inc(rs[0].calls))] + rs[1..]
  {
    AsWrittenUntouched(rs[1..]);
  }

  lemma WrittenHead(rs: seq<Record>, last: string)
    requires |rs| > 0 && rs[0].name == last != ""
    ensures Written(rs, last) == [Record(rs[0].name, Inc(rs[0].calls))] + rs[1..]
  {
    var head := Record(rs[0].name, Inc(rs[0].calls));
    assert FirstMatch(rs, last) == Some(0);
    assert Written(rs, last) == rs[0 := head];
    assert rs[0 := head] == [head] + rs[1..];
  }

  /** Past a command of another name, the written records are that command's and the rest's. */
  lemma WrittenSkips(rs: seq<Record>, last: string)
    requires |rs| > 0 && rs[0].name != last
    ensures Written(rs, last) == [rs[0]] + Written(rs[1..], last)
  {
    IncrementSkips(rs, last);
  }

  lemma AsWrittenSkips(rs: seq<Record>, last: string)
    requires |rs| > 0 && rs[0].name != last
    ensures WrittenAsWritten(rs, last) == [rs[0]] + WrittenAsWritten(rs[1..], last)
  {
  }
}
