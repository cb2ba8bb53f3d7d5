/**
 * The line rewriter of src/mlt.rs (`add_filtergraph_to_producers`): the
 * project text is edited line by line, never re-serialised. Old
 * `filtergraph` lines may be dropped, and before every media property line
 * whose URL has a filter string a new `filtergraph` property line is put.
 */
module MltRewrite {
  import opened Wrappers
  import opened Strings

  // ---------------------------------------------------------------------
  // The value capture of `<property name=".*">(?P<value>.*)</property>`
  // ---------------------------------------------------------------------

  const PropertyOpen := "<property name=\""
  const NameEnd := "\">"
  const PropertyClose := "</property>"

  /**
   * A match of the property pattern: its opening text at `st`, the `">` that
   * ends the first group at `p` and the closing tag at `q`. The value group
   * is the text between `p + 2` and `q`.
   */
  predicate RegexMatch(line: string, st: int, p: int, q: int)
  {
    IsAt(line, PropertyOpen, st) && st + |PropertyOpen| <= p && IsAt(line, NameEnd, p) && p + |NameEnd| <= q
    && IsAt(line, PropertyClose, q)
  }

  /**
   * The `value` group of the first match of the pattern with greedy groups:
   * the text after the last `">` that still has a closing tag after it, up to
   * the last closing tag, when the first opening text comes before that `">`.
   */
  function CaptureValue(line: string): (r: Option<string>)
  {
    match IndexOf(line, PropertyOpen)
    case None => None
    case Some(st) =>
      match LastIndexOf(line, PropertyClose)
      case None => None
      case Some(q) =>
        if q < 1 then None
        else
          match LastIndexBelow(line, NameEnd, q - 1)
          case None => None
          case Some(p) => if p < st + |PropertyOpen| then None else Some(line[p + |NameEnd|..q])
  }

  /** Every value captured comes from a match of the pattern. */
  lemma CaptureSound(line: string)
    ensures CaptureValue(line).Some? ==>
      exists st, p, q :: (RegexMatch(line, st, p, q) && CaptureValue(line) == Some(line[p + 2..q]))
  {
    if CaptureValue(line).Some? {
      var st := IndexOf(line, PropertyOpen).value;
      var q := LastIndexOf(line, PropertyClose).value;
      var p := LastIndexBelow(line, NameEnd, q - 1).value;
      assert RegexMatch(line, st, p, q);
    }
  }

  /**
   * Leftmost-greedy: when the pattern matches at all, a value is captured,
   * and it is that of the match starting leftmost whose groups both reach
   * furthest right.
   */
  lemma CaptureLeftmostGreedy(line: string, st: int, p: int, q: int)
    requires RegexMatch(line, st, p, q)
    ensures CaptureValue(line).Some?
    ensures exists st0, p0, q0 :: (RegexMatch(line, st0, p0, q0) && st0 <= st && p <= p0 && q <= q0
      && CaptureValue(line) == Some(line[p0 + 2..q0]))
  {
    var st0 := IndexOf(line, PropertyOpen).value;
    var q0 := LastIndexOf(line, PropertyClose).value;
    var p1 := LastIndexBelow(line, NameEnd, q0 - 1);
    assert p1.Some? by {
      assert IsAt(line, NameEnd, p) && p < q0 - 1;
    }
    var p0 := p1.value;
    assert RegexMatch(line, st0, p0, q0);
  }

  // ---------------------------------------------------------------------
  // One line
  // ---------------------------------------------------------------------

  /** A line carrying a `filtergraph` property. */
  predicate IsFiltergraphLine(line: string)
  {
    Contains(line, "name=\"filtergraph\"")
  }

  /** A line carrying the original URL or the resource of a producer. */
  predicate IsMediaLine(line: string)
  {
    Contains(line, "<property name=\"kdenlive:originalurl") || Contains(line, "<property name=\"resource")
  }

  /** The filter string, followed by `,` and the extra filter when one is given. */
  function FiltergraphValue(filterString: string, appendFilter: Option<string>): string
  {
    match appendFilter
    case None => filterString
    case Some(a) => filterString + "," + a
  }

  const FiltergraphOpen := "  <property name=\"filtergraph\">"

  function FiltergraphLine(value: string): string
  {
    FiltergraphOpen + value + PropertyClose
  }

  /** The line put before `line`, if any: for a media line whose URL has a filter string. */
  function Insertion(line: string, filterStrings: map<string, string>, appendFilter: Option<string>): (r: seq<string>)
    ensures |r| <= 1
    ensures |r| == 1 <==> IsMediaLine(line) && CaptureValue(line).Some? && CaptureValue(line).value in filterStrings
    ensures |r| == 1 ==> r[0] == FiltergraphLine(FiltergraphValue(filterStrings[CaptureValue(line).value], appendFilter))
  {
    if IsMediaLine(line) then
      match CaptureValue(line)
      case None => []
      case Some(url) =>
        if url in filterStrings then [FiltergraphLine(FiltergraphValue(filterStrings[url], appendFilter))] else []
    else []
  }

  /** What one input line becomes: nothing when deleted, else the line with its insertion before it. */
  function RewriteLine(line: string, filterStrings: map<string, string>, deleteExisting: bool, appendFilter: Option<string>): (r: seq<string>)
    ensures deleteExisting && IsFiltergraphLine(line) ==> r == []
    ensures !(deleteExisting && IsFiltergraphLine(line)) ==> |r| > 0 && r[|r| - 1] == line
  {
    if deleteExisting && IsFiltergraphLine(line) then []
    else Insertion(line, filterStrings, appendFilter) + [line]
  }

  /** The pieces `f` makes of each line, in order. */
  function FlatMap(lines: seq<string>, f: string -> seq<string>): seq<string>
  {
    if |lines| == 0 then [] else f(lines[0]) + FlatMap(lines[1..], f)
  }

  function Rewriter(filterStrings: map<string, string>, deleteExisting: bool, appendFilter: Option<string>): string -> seq<string>
  {
    line => RewriteLine(line, filterStrings, deleteExisting, appendFilter)
  }

  /** The output lines for a list of input lines. */
  function RewriteLines(lines: seq<string>, filterStrings: map<string, string>, deleteExisting: bool, appendFilter: Option<string>): seq<string>
  {
    FlatMap(lines, Rewriter(filterStrings, deleteExisting, appendFilter))
  }

  /** The text `add_filtergraph_to_producers` returns. */
  function AddFiltergraphText(xml: string, filterStrings: map<string, string>, deleteExisting: bool, appendFilter: Option<string>): string
  {
    Join("\n", RewriteLines(Lines(xml), filterStrings, deleteExisting, appendFilter))
  }

  // ---------------------------------------------------------------------
  // The loop
  // ---------------------------------------------------------------------

  lemma {:induction false} FlatMapConcat(a: seq<string>, b: seq<string>, f: string -> seq<string>)
    ensures FlatMap(a + b, f) == FlatMap(a, f) + FlatMap(b, f)
  {
    if |a| > 0 {
      assert (a + b)[1..] == a[1..] + b;
      FlatMapConcat(a[1..], b, f);
    } else {
      assert a + b == b;
    }
  }

  lemma RewriteLinesConcat(a: seq<string>, b: seq<string>, m: map<string, string>, d: bool, app: Option<string>)
    ensures RewriteLines(a + b, m, d, app) == RewriteLines(a, m, d, app) + RewriteLines(b, m, d, app)
  {
    FlatMapConcat(a, b, Rewriter(m, d, app));
  }

  lemma RewriteLinesCons(lines: seq<string>, m: map<string, string>, d: bool, app: Option<string>)
    requires |lines| > 0
    ensures RewriteLines(lines, m, d, app) == RewriteLine(lines[0], m, d, app) + RewriteLines(lines[1..], m, d, app)
  {
  }

  lemma RewriteLinesOne(line: string, m: map<string, string>, d: bool, app: Option<string>)
    ensures RewriteLines([line], m, d, app) == RewriteLine(line, m, d, app)
  {
    assert [line][1..] == [];
    assert FlatMap([], Rewriter(m, d, app)) == [];
  }

  lemma RewriteLinesSnoc(lines: seq<string>, i: nat, m: map<string, string>, d: bool, app: Option<string>)
    requires i < |lines|
    ensures RewriteLines(lines[..i + 1], m, d, app) == RewriteLines(lines[..i], m, d, app) + RewriteLine(lines[i], m, d, app)
  {
    assert lines[..i + 1] == lines[..i] + [lines[i]];
    RewriteLinesConcat(lines[..i], [lines[i]], m, d, app);
    RewriteLinesOne(lines[i], m, d, app);
  }

  /** The three outcomes for one line, in the order the loop tests them. */
  lemma RewriteLineCases(line: string, m: map<string, string>, d: bool, app: Option<string>)
    ensures d && IsFiltergraphLine(line) ==> RewriteLine(line, m, d, app) == []
    ensures Triggers(line, m, d) ==>
      RewriteLine(line, m, d, app) == [FiltergraphLine(FiltergraphValue(m[CaptureValue(line).value], app)), line]
    ensures !(d && IsFiltergraphLine(line)) && !Triggers(line, m, d) ==> RewriteLine(line, m, d, app) == [line]
  {
  }

  /** `add_filtergraph_to_producers`. */
  method AddFiltergraphToProducers(xml: string, filterStrings: map<string, string>, deleteExisting: bool, appendFilter: Option<string>)
    returns (result: string)
    ensures result == AddFiltergraphText(xml, filterStrings, deleteExisting, appendFilter)
  {
    var lines := Lines(xml);
    var output: seq<string> := [];
    for i := 0 to |lines|
      invariant output == RewriteLines(lines[..i], filterStrings, deleteExisting, appendFilter)
    {
      var line := lines[i];
      RewriteLinesSnoc(lines, i, filterStrings, deleteExisting, appendFilter);
      RewriteLineCases(line, filterStrings, deleteExisting, appendFilter);
      if deleteExisting && IsFiltergraphLine(line) {
        continue;
      }
      if IsMediaLine(line) {
        var url := CaptureValue(line);
        if url.Some? && url.value in filterStrings {
          var filterString := filterStrings[url.value];
          if appendFilter.Some? {
            filterString := filterString + "," + appendFilter.value;
          }
          assert Triggers(line, filterStrings, deleteExisting);
          output := output + [FiltergraphLine(filterString), line];
          continue;
        }
      }
      assert !Triggers(line, filterStrings, deleteExisting);
      output := output + [line];
    }
    assert lines[..|lines|] == lines;
    result := Join("\n", output);
  }

  // ---------------------------------------------------------------------
  // Properties
  // ---------------------------------------------------------------------

  /** Every inserted line is itself a `filtergraph` line. */
  lemma FiltergraphLineIsFiltergraph(value: string)
    ensures IsFiltergraphLine(FiltergraphLine(value))
  {
    var s := FiltergraphLine(value);
    assert s[12..12 + |"name=\"filtergraph\""|] == "name=\"filtergraph\"";
    assert IsAt(s, "name=\"filtergraph\"", 12);
    ContainsIff(s, "name=\"filtergraph\"");
  }

  /** The lines that pass `p`, in order. */
  function Keep(lines: seq<string>, p: string -> bool): (r: seq<string>)
    ensures |r| <= |lines|
  {
    if |lines| == 0 then []
    else (if p(lines[0]) then [lines[0]] else []) + Keep(lines[1..], p)
  }

  lemma {:induction false} KeepConcat(a: seq<string>, b: seq<string>, p: string -> bool)
    ensures Keep(a + b, p) == Keep(a, p) + Keep(b, p)
  {
    if |a| > 0 {
      assert (a + b)[1..] == a[1..] + b;
      KeepConcat(a[1..], b, p);
    } else {
      assert a + b == b;
    }
  }

  lemma KeepOne(line: string, p: string -> bool)
    ensures Keep([line], p) == if p(line) then [line] else []
  {
    assert [line][1..] == [];
  }

  predicate NotFiltergraph(line: string)
  {
    !IsFiltergraphLine(line)
  }

  /** The lines that are not `filtergraph` lines. */
  function OtherLines(lines: seq<string>): seq<string>
  {
    Keep(lines, NotFiltergraph)
  }

  /** The `filtergraph` lines. */
  function FiltergraphLines(lines: seq<string>): seq<string>
  {
    Keep(lines, IsFiltergraphLine)
  }

  /** One line's rewrite keeps it if it is not a `filtergraph` line, and adds only `filtergraph` lines. */
  lemma OtherLinesOfRewrite(line: string, m: map<string, string>, d: bool, app: Option<string>)
    ensures OtherLines(RewriteLine(line, m, d, app)) == OtherLines([line])
  {
    RewriteLineCases(line, m, d, app);
    KeepOne(line, NotFiltergraph);
    if Triggers(line, m, d) {
      var v := FiltergraphValue(m[CaptureValue(line).value], app);
      var g := FiltergraphLine(v);
      FiltergraphLineIsFiltergraph(v);
      assert [g, line] == [g] + [line];
      KeepConcat([g], [line], NotFiltergraph);
      KeepOne(g, NotFiltergraph);
    }
  }

  /** One line's rewrite holds its own `filtergraph` line when not deleted, and one more when it triggers. */
  lemma FiltergraphLinesOfRewrite(line: string, m: map<string, string>, d: bool, app: Option<string>)
    ensures |FiltergraphLines(RewriteLine(line, m, d, app))| ==
      (if IsFiltergraphLine(line) && !d then 1 else 0) + (if Triggers(line, m, d) then 1 else 0)
  {
    RewriteLineCases(line, m, d, app);
    KeepOne(line, IsFiltergraphLine);
    if Triggers(line, m, d) {
      var v := FiltergraphValue(m[CaptureValue(line).value], app);
      var g := FiltergraphLine(v);
      FiltergraphLineIsFiltergraph(v);
      assert [g, line] == [g] + [line];
      KeepConcat([g], [line], IsFiltergraphLine);
      KeepOne(g, IsFiltergraphLine);
    }
  }

  /**
   * Only `filtergraph` lines are ever dropped or added: every other line is
   * kept, unchanged and in its order, whatever the flags.
   */
  lemma {:induction false} OtherLinesKept(lines: seq<string>, m: map<string, string>, d: bool, app: Option<string>)
    ensures OtherLines(RewriteLines(lines, m, d, app)) == OtherLines(lines)
  {
    if |lines| > 0 {
      var line := lines[0];
      RewriteLinesCons(lines, m, d, app);
      KeepConcat(RewriteLine(line, m, d, app), RewriteLines(lines[1..], m, d, app), NotFiltergraph);
      OtherLinesKept(lines[1..], m, d, app);
      OtherLinesOfRewrite(line, m, d, app);
      assert [line] + lines[1..] == lines;
      KeepConcat([line], lines[1..], NotFiltergraph);
    }
  }

  /** A line that is kept and gets a `filtergraph` line before it. */
  predicate Triggers(line: string, m: map<string, string>, deleteExisting: bool)
  {
    !(deleteExisting && IsFiltergraphLine(line)) && IsMediaLine(line) && CaptureValue(line).Some? && CaptureValue(line).value in m
  }

  function Trigger(m: map<string, string>, deleteExisting: bool): string -> bool
  {
    line => Triggers(line, m, deleteExisting)
  }

  /**
   * Exactly one `filtergraph` line is added per triggering line: the output
   * holds as many as those, plus the input's own when they are not deleted.
   */
  lemma {:induction false} FiltergraphLinesCount(lines: seq<string>, m: map<string, string>, d: bool, app: Option<string>)
    ensures |FiltergraphLines(RewriteLines(lines, m, d, app))| ==
      (if d then 0 else |FiltergraphLines(lines)|) + |Keep(lines, Trigger(m, d))|
  {
    if |lines| > 0 {
      var line := lines[0];
      RewriteLinesCons(lines, m, d, app);
      KeepConcat(RewriteLine(line, m, d, app), RewriteLines(lines[1..], m, d, app), IsFiltergraphLine);
      FiltergraphLinesCount(lines[1..], m, d, app);
      FiltergraphLinesOfRewrite(line, m, d, app);
      assert [line] + lines[1..] == lines;
      KeepConcat([line], lines[1..], IsFiltergraphLine);
      KeepConcat([line], lines[1..], Trigger(m, d));
      KeepOne(line, IsFiltergraphLine);
      KeepOne(line, Trigger(m, d));
    } else {
      assert Keep(lines, Trigger(m, d)) == [];
    }
  }

  /** Without deletion, when no line is a media line whose URL has a filter string, the lines pass through. */
  lemma {:induction false} PassThrough(lines: seq<string>, m: map<string, string>, app: Option<string>)
    requires forall i :: 0 <= i < |lines| ==> !Triggers(lines[i], m, false)
    ensures RewriteLines(lines, m, false, app) == lines
  {
    if |lines| > 0 {
      RewriteLinesCons(lines, m, false, app);
      RewriteLineCases(lines[0], m, false, app);
      PassThrough(lines[1..], m, app);
      assert lines == [lines[0]] + lines[1..];
    }
  }

  /** With deletion, the output has no `filtergraph` line besides the ones inserted. */
  lemma {:induction false} DeletedThenInserted(lines: seq<string>, m: map<string, string>, app: Option<string>)
    ensures RewriteLines(lines, m, true, app) == RewriteLines(OtherLines(lines), m, true, app)
  {
    if |lines| > 0 {
      DeletedThenInserted(lines[1..], m, app);
      var line := lines[0];
      if !IsFiltergraphLine(line) {
        assert OtherLines(lines) == [line] + OtherLines(lines[1..]);
        RewriteLinesConcat([line], OtherLines(lines[1..]), m, true, app);
        RewriteLinesOne(line, m, true, app);
      } else {
        assert OtherLines(lines) == OtherLines(lines[1..]);
        assert RewriteLine(line, m, true, app) == [];
        assert RewriteLines(lines, m, true, app) == RewriteLines(lines[1..], m, true, app);
      }
    }
  }

  /** The rewrite of one kept line is left as it is by a second rewrite with deletion. */
  lemma RewriteLineStable(line: string, m: map<string, string>, app: Option<string>)
    requires !IsFiltergraphLine(line)
    ensures RewriteLines(RewriteLine(line, m, true, app), m, true, app) == RewriteLine(line, m, true, app)
  {
    var ins := Insertion(line, m, app);
    var out := RewriteLine(line, m, true, app);
    assert out == ins + [line];
    RewriteLinesConcat(ins, [line], m, true, app);
    RewriteLinesOne(line, m, true, app);
    assert RewriteLines([line], m, true, app) == out;
    assert RewriteLines(ins, m, true, app) == [] by {
      if |ins| == 1 {
        var g := ins[0];
        assert g == FiltergraphLine(FiltergraphValue(m[CaptureValue(line).value], app));
        FiltergraphLineIsFiltergraph(FiltergraphValue(m[CaptureValue(line).value], app));
        assert ins == [g];
        RewriteLinesOne(g, m, true, app);
        assert RewriteLine(g, m, true, app) == [];
      } else {
        assert ins == [];
      }
    }
  }

  /** With deletion, a second run over the output lines with the same map changes nothing. */
  lemma {:induction false} RewriteIdempotent(lines: seq<string>, m: map<string, string>, app: Option<string>)
    ensures RewriteLines(RewriteLines(lines, m, true, app), m, true, app) == RewriteLines(lines, m, true, app)
  {
    if |lines| > 0 {
      var line := lines[0];
      var first := RewriteLine(line, m, true, app);
      var rest := RewriteLines(lines[1..], m, true, app);
      RewriteLinesConcat(first, rest, m, true, app);
      RewriteIdempotent(lines[1..], m, app);
      if IsFiltergraphLine(line) {
        assert first == [];
      } else {
        RewriteLineStable(line, m, app);
      }
    }
  }

  /** A producer whose original-URL line and resource line both name a key gets two inserted lines. */
  lemma TwoInsertions(original: string, resource: string, m: map<string, string>, d: bool, app: Option<string>)
    requires IsMediaLine(original) && !IsFiltergraphLine(original)
    requires IsMediaLine(resource) && !IsFiltergraphLine(resource)
    requires CaptureValue(original).Some? && CaptureValue(original).value in m
    requires CaptureValue(resource).Some? && CaptureValue(resource).value in m
    ensures RewriteLines([original, resource], m, d, app) ==
      [FiltergraphLine(FiltergraphValue(m[CaptureValue(original).value], app)), original,
       FiltergraphLine(FiltergraphValue(m[CaptureValue(resource).value], app)), resource]
  {
    assert [original, resource] == [original] + [resource];
    RewriteLinesConcat([original], [resource], m, d, app);
    RewriteLinesOne(original, m, d, app);
    RewriteLinesOne(resource, m, d, app);
    RewriteLineCases(original, m, d, app);
    RewriteLineCases(resource, m, d, app);
  }

  /** A piece of text without either line break. */
  predicate Unbroken(s: string)
  {
    '\n' !in s && '\r' !in s
  }

  predicate AllUnbroken(lines: seq<string>)
  {
    forall i :: 0 <= i < |lines| ==> Unbroken(lines[i])
  }

  /** The filter strings and the extra filter hold no line break. */
  predicate UnbrokenValues(m: map<string, string>, app: Option<string>)
  {
    (forall url :: url in m ==> Unbroken(m[url])) && (app.Some? ==> Unbroken(app.value))
  }

  lemma UnbrokenConcat(a: string, b: string)
    requires Unbroken(a) && Unbroken(b)
    ensures Unbroken(a + b)
  {
    assert forall c :: c in a + b ==> c in a || c in b;
  }

  lemma LiteralsUnbroken()
    ensures Unbroken(FiltergraphOpen) && Unbroken(PropertyClose) && Unbroken(",")
  {
  }

  /** An inserted line holds no line break when its filter string and the extra filter hold none. */
  lemma FiltergraphLineUnbroken(filterString: string, app: Option<string>)
    requires Unbroken(filterString) && (app.Some? ==> Unbroken(app.value))
    ensures Unbroken(FiltergraphLine(FiltergraphValue(filterString, app)))
  {
    var v := FiltergraphValue(filterString, app);
    assert Unbroken(v) by {
      if app.Some? {
        LiteralsUnbroken();
        UnbrokenConcat(filterString, ",");
        UnbrokenConcat(filterString + ",", app.value);
      }
    }
    LiteralsUnbroken();
    UnbrokenConcat(FiltergraphOpen, v);
    UnbrokenConcat(FiltergraphOpen + v, PropertyClose);
  }

  lemma AllUnbrokenConcat(a: seq<string>, b: seq<string>)
    requires AllUnbroken(a) && AllUnbroken(b)
    ensures AllUnbroken(a + b)
  {
    forall i | 0 <= i < |a + b|
      ensures Unbroken((a + b)[i])
    {
      if i >= |a| {
        assert (a + b)[i] == b[i - |a|];
      }
    }
  }

  /** The last line, if any, is neither blank nor a `filtergraph` line. */
  predicate EndsWithKeptLine(lines: seq<string>)
  {
    |lines| > 0 ==> lines[|lines| - 1] != "" && !IsFiltergraphLine(lines[|lines| - 1])
  }

  /** The lines of the output text are the output lines, under the conditions `str::lines` needs. */
  lemma LinesOfOutput(lines: seq<string>, m: map<string, string>, app: Option<string>)
    requires AllUnbroken(lines) && UnbrokenValues(m, app) && EndsWithKeptLine(lines)
    ensures Lines(Join("\n", RewriteLines(lines, m, true, app))) == RewriteLines(lines, m, true, app)
  {
    var out := RewriteLines(lines, m, true, app);
    RewriteLinesClean(lines, m, true, app);
    if |lines| > 0 {
      var n := |lines| - 1;
      assert lines == lines[..n] + [lines[n]];
      RewriteLinesConcat(lines[..n], [lines[n]], m, true, app);
      RewriteLinesOne(lines[n], m, true, app);
      assert out[|out| - 1] == lines[n];
    }
    assert forall i :: 0 <= i < |out| ==> Unbroken(out[i]);
    LinesOfJoin(out);
  }

  /** Output lines hold no line break when the input lines, the values and the extra filter hold none. */
  lemma {:induction false} RewriteLinesClean(lines: seq<string>, m: map<string, string>, d: bool, app: Option<string>)
    requires AllUnbroken(lines) && UnbrokenValues(m, app)
    ensures AllUnbroken(RewriteLines(lines, m, d, app))
  {
    if |lines| > 0 {
      var line := lines[0];
      assert AllUnbroken(lines[1..]) by {
        forall i | 0 <= i < |lines[1..]| ensures Unbroken(lines[1..][i]) {
          assert lines[1..][i] == lines[i + 1];
        }
      }
      RewriteLinesClean(lines[1..], m, d, app);
      assert Unbroken(line);
      var ins := Insertion(line, m, app);
      assert AllUnbroken(ins) by {
        if |ins| == 1 {
          FiltergraphLineUnbroken(m[CaptureValue(line).value], app);
        }
      }
      AllUnbrokenConcat(ins, [line]);
      AllUnbrokenConcat(RewriteLine(line, m, d, app), RewriteLines(lines[1..], m, d, app));
    }
  }

  /**
   * The text-level form of idempotence: for a text without carriage returns
   * whose last line is neither blank nor a `filtergraph` line, running the
   * rewrite with deletion on its own output gives the same text.
   */
  lemma TextIdempotent(xml: string, m: map<string, string>, app: Option<string>)
    requires '\r' !in xml && UnbrokenValues(m, app) && EndsWithKeptLine(Lines(xml))
    ensures AddFiltergraphText(AddFiltergraphText(xml, m, true, app), m, true, app) == AddFiltergraphText(xml, m, true, app)
  {
    var lines := Lines(xml);
    var out := RewriteLines(lines, m, true, app);
    LinesHaveNoCr(xml);
    LinesOfOutput(lines, m, app);
    RewriteIdempotent(lines, m, app);
    assert AddFiltergraphText(xml, m, true, app) == Join("\n", out);
    assert Lines(Join("\n", out)) == out;
  }

  lemma LinesOfNewline()
    ensures Lines("\n") == [""]
  {
    IndexOfCharAt("\n", "", '\n');
    assert "\n"[1..] == "";
  }

  lemma LinesOfTerminated(line: string)
    requires Unbroken(line)
    ensures Lines(line + "\n") == [line]
  {
    var s := line + "\n";
    IndexOfCharAt(s, line, '\n');
    assert s[..|line|] == line && s[|line| + 1..] == "";
    assert |line| == 0 || line[|line| - 1] != '\r' by {
      if |line| > 0 { assert line[|line| - 1] in line; }
    }
  }

  /** A line that is neither deleted nor followed by an insertion is kept alone. */
  lemma RewriteKept(line: string, m: map<string, string>, d: bool, app: Option<string>)
    requires !(d && IsFiltergraphLine(line)) && !Triggers(line, m, d)
    ensures RewriteLines([line], m, d, app) == [line]
  {
    RewriteLineCases(line, m, d, app);
    RewriteLinesOne(line, m, d, app);
  }

  lemma RewriteLineAndBlank(line: string, m: map<string, string>, app: Option<string>)
    requires !IsFiltergraphLine(line) && !Triggers(line, m, true)
    ensures RewriteLines([line, ""], m, true, app) == [line, ""]
  {
    assert !IsFiltergraphLine("") && !IsMediaLine("");
    RewriteLineCases(line, m, true, app);
    RewriteLinesCons([line, ""], m, true, app);
    assert [line, ""][1..] == [""];
    RewriteKept("", m, true, app);
  }

  /**
   * Why the last line must not be blank: the `\n` join drops a final blank
   * line, so a text ending in one shrinks on every run even when nothing is
   * inserted or deleted.
   */
  lemma BlankLastLineLost(line: string, m: map<string, string>, app: Option<string>)
    requires Unbroken(line) && !IsFiltergraphLine(line) && !Triggers(line, m, true)
    ensures AddFiltergraphText(line + "\n\n", m, true, app) == line + "\n"
    ensures AddFiltergraphText(line + "\n", m, true, app) == line
  {
    LinesOfNewline();
    assert line + "\n\n" == line + "\n" + "\n";
    LinesCons(line, "\n");
    LinesOfTerminated(line);
    RewriteLineAndBlank(line, m, app);
    RewriteKept(line, m, true, app);
    assert Join("\n", [line, ""]) == line + "\n" + "";
  }

  /** `str::lines` of a text without carriage returns gives lines without either break. */
  lemma {:induction false} LinesHaveNoCr(s: string)
    requires '\r' !in s
    ensures AllUnbroken(Lines(s))
    decreases |s|
  {
    if |s| > 0 {
      match IndexOfChar(s, '\n')
      case None =>
      case Some(i) =>
        assert forall c :: c in s[i + 1..] ==> c in s;
        LinesHaveNoCr(s[i + 1..]);
        assert forall c :: c in s[..i] ==> c in s;
        assert forall c :: c in StripCr(s[..i]) ==> c in s[..i];
    }
  }
}
