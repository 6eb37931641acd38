/**
 * Row construction (`getInterestingThings`) and the CSV header. An extractor
 * (ThingWeAreInterestedIn) is a column name paired with a function from a
 * commit to a value; the three extractor classes are opaque here.
 */
module Extraction {
  import opened Commits
  import opened Walker

  /** A ThingWeAreInterestedIn: getName() and getThing(commit). */
  datatype Extractor<V> = Extractor(name: string, getThing: Commit -> V)

  /** The header: each extractor's name, in list order. */
  function Header<V>(xs: seq<Extractor<V>>): (names: seq<string>)
    ensures |names| == |xs|
    ensures forall j :: 0 <= j < |xs| ==> names[j] == xs[j].name
  {
    if xs == [] then [] else [xs[0].name] + Header(xs[1..])
  }

  /** One row: every extractor applied to the commit, in list order. */
  function Row<V>(xs: seq<Extractor<V>>, c: Commit): (row: seq<V>)
    ensures |row| == |xs|
    ensures forall j :: 0 <= j < |xs| ==> row[j] == xs[j].getThing(c)
  {
    if xs == [] then [] else [xs[0].getThing(c)] + Row(xs[1..], c)
  }

  /** One row per commit, in the commits' order. */
  function Rows<V>(xs: seq<Extractor<V>>, commits: seq<Commit>): (rows: seq<seq<V>>)
    ensures |rows| == |commits|
    ensures forall i :: 0 <= i < |commits| ==> rows[i] == Row(xs, commits[i])
  {
    if commits == [] then [] else [Row(xs, commits[0])] + Rows(xs, commits[1..])
  }

  /** getInterestingThings: the rows of the commits getCommitsSince yields. */
  function InterestingThings<V>(h: seq<Commit>, since: LocalDay, xs: seq<Extractor<V>>, fetchOk: nat -> bool): seq<seq<V>> {
    Rows(xs, CommitsSince(h, since, fetchOk))
  }

  /**
   * With every fetch succeeding, there is one row per commit authored after
   * `since`, in history order; cell j of a row is extractor j's value for
   * that commit, under the header's column j.
   */
  lemma RowsMatchQualifyingCommits<V>(h: seq<Commit>, since: LocalDay, xs: seq<Extractor<V>>, fetchOk: nat -> bool)
    requires forall s :: fetchOk(s)
    ensures var rows, qualifying := InterestingThings(h, since, xs, fetchOk), After(h, since);
      && |rows| == |qualifying|
      && forall i, j :: 0 <= i < |rows| && 0 <= j < |xs| ==>
           |rows[i]| == |Header(xs)|
           && rows[i][j] == xs[j].getThing(qualifying[i])
           && Header(xs)[j] == xs[j].name
  {
    CommitsSinceExact(h, since, fetchOk);
  }
}
