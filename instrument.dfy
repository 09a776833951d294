/**
 * The coverage bookkeeping of the simple code coverage instrument: a map from
 * each source to its loaded but not yet executed sections, grown by the load
 * listener, shrunk by the coverage nodes, and reduced to line numbers for the
 * report.
 */
module SimpleCodeCoverage {

  import opened CoverageTypes
  import opened LineOrder

  /** Each source with the sections of it that were loaded and not yet executed. */
  type Registry = map<Source, set<Section>>

  /** The registry invariant: only non-internal sources are keys, and every
      section sits in the set of its own source. */
  ghost predicate WellFormed(m: Registry)
  {
    forall s :: s in m ==> !s.internal && forall ss :: ss in m[s] ==> ss.source == s
  }

  /** The registry after the load listener is told of section `ss`: a section
      of a non-internal source joins its source's set, which is created empty
      when the source is new; an internal source changes nothing. */
  function Load(m: Registry, ss: Section): (r: Registry)
    ensures ss.source.internal ==> r == m
    ensures !ss.source.internal ==> r.Keys == m.Keys + {ss.source}
    ensures !ss.source.internal ==>
      forall x :: x in r[ss.source] <==> x == ss || (ss.source in m && x in m[ss.source])
    ensures forall s :: s in m && s != ss.source ==> s in r && r[s] == m[s]
    ensures WellFormed(m) ==> WellFormed(r)
  {
    if ss.source.internal then m
    else m[ss.source := (if ss.source in m then m[ss.source] else {}) + {ss}]
  }

  /** The registry after section `ss` is removed from its source's set, as a
      node does on its first return. An internal source changes nothing; a
      source with no set is a null dereference. */
  function Discard(m: Registry, ss: Section): (r: Result<Registry>)
    ensures r.Err? <==> !ss.source.internal && ss.source !in m
    ensures r.Ok? && ss.source.internal ==> r.value == m
    ensures r.Ok? && !ss.source.internal ==>
      r.value.Keys == m.Keys &&
      forall x :: x in r.value[ss.source] <==> x in m[ss.source] && x != ss
    ensures r.Ok? ==> forall s :: s in m && s != ss.source ==> r.value[s] == m[s]
    ensures r.Ok? && WellFormed(m) ==> WellFormed(r.value)
  {
    if ss.source.internal then Ok(m)
    else if ss.source !in m then Err(NullPointerException)
    else Ok(m[ss.source := m[ss.source] - {ss}])
  }

  /** How a call of `onReturnValue` ends. */
  datatype Outcome = Returned | Threw(failure: Failure)

  /** A node's flag and the registry after one of its calls, and how it ended. */
  datatype NodeStep = NodeStep(covered: bool, registry: Registry, outcome: Outcome)

  /** One call of `onReturnValue` on a node instrumenting `ss`: a node not yet
      covered sets its flag before anything else and then discards its section;
      a covered node does nothing. */
  function ReturnValueStep(covered: bool, m: Registry, ss: Section): (r: NodeStep)
    ensures r.covered
    ensures covered ==> r == NodeStep(true, m, Returned)
    ensures !covered && r.outcome.Returned? ==> Discard(m, ss) == Ok(r.registry)
    ensures !covered && r.outcome.Threw? ==>
      Discard(m, ss).Err? && r.registry == m && r.outcome.failure == NullPointerException
  {
    if covered then NodeStep(true, m, Returned)
    else match Discard(m, ss)
      case Ok(m') => NodeStep(true, m', Returned)
      case Err(f) => NodeStep(true, m, Threw(f))
  }

  /** What the integer part of the report says of one source. */
  datatype SourceCoverage = SourceCoverage(source: Source, coveredLineCount: int, notYetCoveredLines: seq<int>)

  /** `c` is what the report says of its source under registry `m`: the lines
      touched by a remaining section in ascending order, each once, and the
      line count minus their number as the covered count. */
  ghost predicate Summarises(m: Registry, c: SourceCoverage)
  {
    && c.source in m
    && StrictlyIncreasing(c.notYetCoveredLines)
    && (forall n :: n in c.notYetCoveredLines <==> InSomeSection(m[c.source], n))
    && c.coveredLineCount == c.source.lineCount - |c.notYetCoveredLines|
  }

  /** The instrument, holding `sourceToNotYetCoveredSections`. */
  class CoverageInstrument {
    var notYetCovered: Registry

    ghost predicate Valid()
      reads this
    {
      WellFormed(notYetCovered)
    }

    constructor ()
      ensures Valid() && notYetCovered == map[]
    {
      notYetCovered := map[];
    }

    /** `GatherSourceSectionsListener.onLoad`: records a loaded section. */
    method OnLoad(ss: Section)
      requires Valid()
      modifies this
      ensures Valid()
      ensures notYetCovered == Load(old(notYetCovered), ss)
    {
      if !ss.source.internal {
        var sections := if ss.source in notYetCovered then notYetCovered[ss.source] else {};
        notYetCovered := notYetCovered[ss.source := sections + {ss}];
      }
    }

    /** `notYetCoveredLineNumbers`: the lines of `source` touched by a
        remaining section, ascending and without duplicates; a source with no
        set is a null dereference. */
    method NotYetCoveredLineNumbers(source: Source) returns (r: Result<seq<int>>)
      ensures r.Err? <==> source !in notYetCovered
      ensures r.Ok? ==> StrictlyIncreasing(r.value)
      ensures r.Ok? ==> forall n :: n in r.value <==> InSomeSection(notYetCovered[source], n)
    {
      if source !in notYetCovered {
        return Err(NullPointerException);
      }
      var linesNotCovered := LinesSpanned(notYetCovered[source]);
      var sortedLines := SortedLines(linesNotCovered);
      return Ok(sortedLines);
    }

    /** The integer part of `printResults`: for every source in the registry,
        its not yet covered lines and its covered line count, each source once. */
    method CoverageResults() returns (report: seq<SourceCoverage>)
      ensures forall k :: 0 <= k < |report| ==> Summarises(notYetCovered, report[k])
      ensures forall s :: s in notYetCovered <==> exists k :: 0 <= k < |report| && report[k].source == s
      ensures forall j, k :: 0 <= j < k < |report| ==> report[j].source != report[k].source
    {
      report := [];
      var pending := notYetCovered.Keys;
      while pending != {}
        invariant pending <= notYetCovered.Keys
        invariant forall k :: 0 <= k < |report| ==> Summarises(notYetCovered, report[k])
        invariant forall s :: s in notYetCovered.Keys - pending <==>
          exists k :: 0 <= k < |report| && report[k].source == s
        invariant forall k :: 0 <= k < |report| ==> report[k].source !in pending
        invariant forall j, k :: 0 <= j < k < |report| ==> report[j].source != report[k].source
        decreases pending
      {
        ghost var someSource := Pick(pending);
        var source :| source in pending;
        var lines := NotYetCoveredLineNumbers(source);
        var entry := SourceCoverage(source, source.lineCount - |lines.value|, lines.value);
        ghost var before, pendingBefore := report, pending;
        report := report + [entry];
        pending := pending - {source};
        forall s | s in notYetCovered.Keys - pending
          ensures exists k :: 0 <= k < |report| && report[k].source == s
        {
          if s == source {
            assert report[|report| - 1].source == s;
          } else {
            assert s in notYetCovered.Keys - pendingBefore;
            var k :| 0 <= k < |before| && before[k].source == s;
            assert report[k].source == s;
          }
        }
      }
      assert notYetCovered.Keys - pending == notYetCovered.Keys;
    }
  }

  /** The nested loops of `notYetCoveredLineNumbers`: every line from the
      start to the end line of every section, gathered in a set. */
  method LinesSpanned(sections: set<Section>) returns (linesNotCovered: set<int>)
    ensures forall n :: n in linesNotCovered <==> InSomeSection(sections, n)
  {
    linesNotCovered := {};
    var pending := sections;
    while pending != {}
      invariant pending <= sections
      invariant forall n :: n in linesNotCovered <==> InSomeSection(sections - pending, n)
      decreases pending
    {
      ghost var someSection := Pick(pending);
      var ss :| ss in pending;
      var i := ss.startLine;
      while i <= ss.endLine
        invariant ss.startLine <= i <= ss.endLine + 1 || i == ss.startLine
        invariant forall n :: n in linesNotCovered <==>
          InSomeSection(sections - pending, n) || ss.startLine <= n < i
        decreases ss.endLine - i
      {
        linesNotCovered := linesNotCovered + {i};
        i := i + 1;
      }
      ghost var before := sections - pending;
      pending := pending - {ss};
      assert sections - pending == before + {ss};
      forall n ensures n in linesNotCovered <==> InSomeSection(sections - pending, n) {
        if InSomeSection(sections - pending, n) {
          var t :| t in sections - pending && Spans(t, n);
          if t != ss {
            assert t in before;
          }
        }
        if ss.startLine <= n <= ss.endLine {
          assert ss in sections - pending && Spans(ss, n);
        }
      }
    }
  }

  /** The list `notYetCoveredLineNumbers` returns: the lines copied into a
      list and sorted in place, ascending and each once. */
  method SortedLines(linesNotCovered: set<int>) returns (sorted: seq<int>)
    ensures StrictlyIncreasing(sorted)
    ensures forall n :: n in sorted <==> n in linesNotCovered
    ensures |sorted| == |linesNotCovered|
  {
    var sortedLines := new int[|linesNotCovered|];
    var rest := linesNotCovered;
    var k := 0;
    while rest != {}
      invariant 0 <= k <= sortedLines.Length
      invariant k + |rest| == |linesNotCovered|
      invariant rest <= linesNotCovered
      invariant multiset(sortedLines[..k]) + multiset(rest) == multiset(linesNotCovered)
      decreases rest
    {
      ghost var someLine := Pick(rest);
      var n :| n in rest;
      sortedLines[k] := n;
      assert sortedLines[..k + 1] == sortedLines[..k] + [n];
      assert multiset(rest) == multiset(rest - {n}) + multiset{n};
      rest := rest - {n};
      k := k + 1;
    }
    assert sortedLines[..] == sortedLines[..k];
    SortAscending(sortedLines);
    AscendingSetIsStrict(sortedLines[..], linesNotCovered);
    sorted := sortedLines[..];
  }

  /** `CoverageNode`: the node the engine inserts at one instrumented section,
      with its one-shot `covered` flag. */
  class CoverageNode {
    var covered: bool
    const instrumentedSourceSection: Section
    const instrument: CoverageInstrument

    constructor (instrument: CoverageInstrument, instrumentedSourceSection: Section)
      ensures !covered
      ensures this.instrument == instrument
      ensures this.instrumentedSourceSection == instrumentedSourceSection
    {
      this.instrument := instrument;
      this.instrumentedSourceSection := instrumentedSourceSection;
      covered := false;
    }

    /** `onReturnValue`: on the first successful return of the instrumented
        code, marks the node covered and removes its section from the registry. */
    method OnReturnValue() returns (outcome: Outcome)
      requires instrument.Valid()
      modifies this, instrument
      ensures instrument.Valid()
      ensures NodeStep(covered, instrument.notYetCovered, outcome)
           == ReturnValueStep(old(covered), old(instrument.notYetCovered), instrumentedSourceSection)
    {
      if !covered {
        covered := true;
        var source := instrumentedSourceSection.source;
        if !source.internal {
          if source !in instrument.notYetCovered {
            return Threw(NullPointerException);
          }
          instrument.notYetCovered :=
            instrument.notYetCovered[source := instrument.notYetCovered[source] - {instrumentedSourceSection}];
        }
      }
      return Returned;
    }
  }

  /** Loading the same section twice leaves the registry as loading it once. */
  lemma LoadIdempotent(m: Registry, ss: Section)
    ensures Load(Load(m, ss), ss) == Load(m, ss)
  {
  }

  /** A second call of `onReturnValue` on a node changes neither its flag nor
      the registry, so two calls leave the state one call leaves. */
  lemma ReturnValueIdempotent(covered: bool, m: Registry, ss: Section)
    ensures var once := ReturnValueStep(covered, m, ss);
            var twice := ReturnValueStep(once.covered, once.registry, ss);
            twice.covered == once.covered && twice.registry == once.registry && twice.outcome == Returned
  {
  }

  /** The report's entry for a source is determined by the registry: two
      entries that both summarise it are equal. */
  lemma {:induction false} SummaryDeterministic(m: Registry, c: SourceCoverage, d: SourceCoverage)
    requires Summarises(m, c) && Summarises(m, d) && c.source == d.source
    ensures c == d
  {
    StrictlyIncreasingUnique(c.notYetCoveredLines, d.notYetCoveredLines);
  }

  /** When every remaining section of a source lies within its lines, the
      covered count lies between 0 and the line count, and equals the line
      count exactly when no remaining section spans a line. */
  lemma {:induction false} CoveredCountBounds(m: Registry, c: SourceCoverage)
    requires Summarises(m, c)
    requires forall ss :: ss in m[c.source] ==> 1 <= ss.startLine && ss.endLine <= c.source.lineCount
    ensures 0 <= c.coveredLineCount <= c.source.lineCount
    ensures c.coveredLineCount == c.source.lineCount <==>
      forall ss :: ss in m[c.source] ==> ss.endLine < ss.startLine
  {
    var lines := c.notYetCoveredLines;
    forall n | n in lines ensures 1 <= n <= c.source.lineCount {
      var ss :| ss in m[c.source] && Spans(ss, n);
    }
    StrictlyIncreasingBound(lines, 1, c.source.lineCount);
    if exists ss :: ss in m[c.source] && ss.startLine <= ss.endLine {
      var ss :| ss in m[c.source] && ss.startLine <= ss.endLine;
      assert Spans(ss, ss.startLine);
      assert ss.startLine in lines;
    }
    if lines != [] {
      assert lines[0] in lines;
      var ss :| ss in m[c.source] && Spans(ss, lines[0]);
    }
  }

  /** The overlapping spans 5-7 and 6-9 leave lines 5 to 9, each once. */
  lemma {:induction false} OverlappingSpansExample(m: Registry, c: SourceCoverage, a: Section, b: Section)
    requires Summarises(m, c) && m[c.source] == {a, b}
    requires a.startLine == 5 && a.endLine == 7 && b.startLine == 6 && b.endLine == 9
    ensures c.notYetCoveredLines == [5, 6, 7, 8, 9]
  {
    var expected := [5, 6, 7, 8, 9];
    forall n ensures n in c.notYetCoveredLines <==> n in expected {
      if 5 <= n <= 7 {
        assert Spans(a, n);
      } else if 6 <= n <= 9 {
        assert Spans(b, n);
      }
    }
    StrictlyIncreasingUnique(c.notYetCoveredLines, expected);
  }

  /** The end-to-end expectation of the instrument's test: a 70-line source
      whose remaining sections touch lines 47 to 58, 61 and 67 reports those
      fourteen lines in ascending order and 56 covered lines. */
  lemma {:induction false} TestExpectation(m: Registry, c: SourceCoverage)
    requires Summarises(m, c) && c.source.lineCount == 70
    requires forall n :: InSomeSection(m[c.source], n) <==> 47 <= n <= 58 || n == 61 || n == 67
    ensures c.notYetCoveredLines == [47, 48, 49, 50, 51, 52, 53, 54, 55, 56, 57, 58, 61, 67]
    ensures c.coveredLineCount == 56
  {
    var expected := [47, 48, 49, 50, 51, 52, 53, 54, 55, 56, 57, 58, 61, 67];
    forall n ensures n in c.notYetCoveredLines <==> n in expected {
      if 47 <= n <= 58 {
        assert expected[n - 47] == n;
      }
    }
    StrictlyIncreasingUnique(c.notYetCoveredLines, expected);
  }
}
