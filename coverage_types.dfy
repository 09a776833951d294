/**
 * The values the coverage instrument works on: sources, the source sections
 * the engine loads from them, and the one exception the bookkeeping can raise.
 */
module CoverageTypes {

  /** A unit of guest code. `id` stands for the engine's notion of identity,
      so two sources that agree on every other attribute may still differ. */
  datatype Source = Source(id: nat, path: string, lineCount: nat, internal: bool)

  /** A span of lines of one source, 1-based and inclusive. `id` keeps two
      sections with the same span apart: their equality is the engine's. */
  datatype Section = Section(id: nat, source: Source, startLine: int, endLine: int)

  /** The exceptions the bookkeeping can raise. */
  datatype Failure = NullPointerException

  /** The outcome of an operation that either returns a value or throws. */
  datatype Result<T> = Ok(value: T) | Err(failure: Failure)

  /** Line `n` lies within the span of `ss`. */
  predicate Spans(ss: Section, n: int)
  {
    ss.startLine <= n <= ss.endLine
  }

  /** Line `n` lies within the span of some section of `sections`. */
  ghost predicate InSomeSection(sections: set<Section>, n: int)
  {
    exists ss :: ss in sections && Spans(ss, n)
  }

  /** An element of a non-empty set; loops that take elements of a set one at
      a time call this before `:|`. */
  lemma Pick<T>(s: set<T>) returns (x: T)
    requires s != {}
    ensures x in s
  {
    if forall y :: y !in s {
      assert false;
    }
    x :| x in s;
  }
}
