/**
 Which rows of evidence a prompt shows, and in which order: the best by keyword, score and recency when there
 are too many, then chronological, with the promoted rows first.
 */
module EvidenceRows {
  import opened Options
  import opened Collections
  import opened StableSorting

  /** Times are told apart by their order; 0 is no time. */
  datatype Row = Row(id: string, episode: bool, score: Option<real>, eventTime: nat, writtenAt: nat)

  const EVIDENCE_MAX_ROWS: nat := 120

  const MAX_EPISODES: nat := 3

  // ---------------------------------------------------------------- the orders

  predicate EarlierTime(x: Row, y: Row) {
    x.eventTime < y.eventTime || (x.eventTime == y.eventTime && x.writtenAt < y.writtenAt)
  }

  /** Newest first; a row without a time is oldest. */
  predicate NewerFirst(x: Row, y: Row) {
    EarlierTime(y, x)
  }

  /** Rows without a score last; no score counts as 0 only among themselves. */
  predicate HigherScoreFirst(x: Row, y: Row) {
    match (x.score, y.score)
    case (Some(a), Some(b)) => a > b
    case (Some(_), None) => true
    case _ => false
  }

  function Leading(ids: set<string>): Order<Row> {
    (x: Row, y: Row) => x.id in ids && y.id !in ids
  }

  /** Oldest first, rows without a time last. */
  predicate Chronological(x: Row, y: Row) {
    if x.eventTime != 0 && y.eventTime != 0 then EarlierTime(x, y)
    else x.eventTime != 0
  }

  /** Keyword hits, then the higher score, then the newer. */
  function Priority(hits: set<string>): Order<Row> {
    Then(Leading(hits), Then(HigherScoreFirst, NewerFirst))
  }

  lemma OrdersRank(ids: set<string>)
    ensures Tiers(NewerFirst) && Tiers(HigherScoreFirst) && Tiers(Leading(ids)) && Tiers(Chronological)
    ensures Tiers(Priority(ids))
  {
  }

  /** A keyword hit comes before a row that is none; then a higher score, any score before none; then a later time. */
  ghost predicate Outranks(x: Row, y: Row, hits: set<string>) {
    if (x.id in hits) != (y.id in hits) then x.id in hits
    else if x.score != y.score then x.score.Some? && (y.score.Some? ==> x.score.value > y.score.value)
    else if x.eventTime != y.eventTime then x.eventTime > y.eventTime
    else x.writtenAt > y.writtenAt
  }

  lemma PriorityMeaning(hits: set<string>, x: Row, y: Row)
    ensures Priority(hits)(x, y) <==> Outranks(x, y, hits)
  {
    var second: Order<Row> := Then(HigherScoreFirst, NewerFirst);
    assert second(x, y) <==> HigherScoreFirst(x, y) || (!HigherScoreFirst(y, x) && NewerFirst(x, y));
    assert Priority(hits)(x, y) <==>
        Leading(hits)(x, y) || (!Leading(hits)(y, x) && second(x, y));
    assert x.score != y.score || !HigherScoreFirst(x, y);
  }

  // ---------------------------------------------------------------- selecting rows

  /** The rows that lead, or those that do not, in order. */
  function Filter(rows: seq<Row>, keep: Row -> bool): (r: seq<Row>)
    ensures forall x :: x in r <==> x in rows && keep(x)
    ensures |r| <= |rows|
  {
    if rows == [] then []
    else
      var front, last := Filter(rows[..|rows| - 1], keep), rows[|rows| - 1];
      assert rows == rows[..|rows| - 1] + [last];
      if keep(last) then front + [last] else front
  }

  lemma {:induction false} FilterKeepsOrder(rows: seq<Row>, keep: Row -> bool)
    ensures forall i, k | 0 <= i < k < |Filter(rows, keep)| ::
              Earlier(rows, Filter(rows, keep)[i], Filter(rows, keep)[k])
  {
    if rows != [] {
      var init, last := rows[..|rows| - 1], rows[|rows| - 1];
      var r, front := Filter(rows, keep), Filter(init, keep);
      FilterKeepsOrder(init, keep);
      assert rows == init + [last];
      forall i, k | 0 <= i < k < |r| ensures Earlier(rows, r[i], r[k]) {
        if k < |front| {
          EarlierInLonger(init, [last], front[i], front[k]);
        } else {
          assert r[i] == front[i] && front[i] in front;
          var a :| 0 <= a < |init| && init[a] == front[i];
          assert rows[a] == r[i] && rows[|init|] == r[k];
        }
      }
    }
  }

  lemma {:induction false} FilterSplits(rows: seq<Row>, keep: Row -> bool)
    ensures multiset(Filter(rows, keep) + Filter(rows, Others(keep))) == multiset(rows)
  {
    var others := Others(keep);
    if rows != [] {
      var init, last := rows[..|rows| - 1], rows[|rows| - 1];
      FilterSplits(init, keep);
      assert rows == init + [last];
      assert multiset(Filter(rows, keep)) + multiset(Filter(rows, others))
        == multiset(Filter(init, keep)) + multiset(Filter(init, others)) + multiset{last};
    }
  }

  predicate IsEpisode(x: Row) {
    x.episode
  }

  function Others(keep: Row -> bool): Row -> bool {
    x => !keep(x)
  }

  /** At most three episode rows, the first ones; when any is dropped, those kept move to the front. */
  function Capped(rows: seq<Row>): seq<Row> {
    var episodes := Filter(rows, IsEpisode);
    if |episodes| <= MAX_EPISODES then rows else episodes[..MAX_EPISODES] + Filter(rows, Others(IsEpisode))
  }

  lemma FilterDistinct(rows: seq<Row>, keep: Row -> bool)
    requires NoRepeats(rows)
    ensures NoRepeats(Filter(rows, keep))
  {
    FilterKeepsOrder(rows, keep);
    var r := Filter(rows, keep);
    forall i, k | 0 <= i < k < |r| ensures r[i] != r[k] {
      assert Earlier(rows, r[i], r[k]);
    }
  }

  /** Every row that is not an episode stays, and of the episodes the first three. */
  lemma CappedMeaning(rows: seq<Row>)
    requires NoRepeats(rows)
    ensures NoRepeats(Capped(rows))
    ensures forall x | x in Capped(rows) :: x in rows
    ensures forall x | x in rows && !x.episode :: x in Capped(rows)
    ensures forall x, y | x in Capped(rows) && x.episode && y in rows && y.episode && y !in Capped(rows) ::
              Earlier(rows, x, y)
    ensures var episodes := |Filter(rows, IsEpisode)|;
            |Capped(rows)| == |Filter(rows, Others(IsEpisode))|
                              + if episodes <= MAX_EPISODES then episodes else MAX_EPISODES
  {
    var episodes, others := Filter(rows, IsEpisode), Filter(rows, Others(IsEpisode));
    FilterSplits(rows, IsEpisode);
    assert |rows| == |multiset(rows)| == |episodes + others|;
    if |episodes| > MAX_EPISODES {
      FilterDistinct(rows, IsEpisode);
      FilterDistinct(rows, Others(IsEpisode));
      FilterKeepsOrder(rows, IsEpisode);
      FirstEpisodes(rows, episodes, others);
    }
  }

  lemma FirstEpisodes(rows: seq<Row>, episodes: seq<Row>, others: seq<Row>)
    requires |episodes| > MAX_EPISODES && NoRepeats(episodes) && NoRepeats(others)
    requires forall x :: x in episodes <==> x in rows && x.episode
    requires forall x :: x in others <==> x in rows && !x.episode
    requires forall i, k | 0 <= i < k < |episodes| :: Earlier(rows, episodes[i], episodes[k])
    ensures var capped := episodes[..MAX_EPISODES] + others;
            && NoRepeats(capped)
            && (forall x | x in capped :: x in rows)
            && (forall x | x in rows && !x.episode :: x in capped)
            && forall x, y | x in capped && x.episode && y in rows && y.episode && y !in capped :: Earlier(rows, x, y)
  {
    hide Earlier;
    var first := episodes[..MAX_EPISODES];
    var capped := first + others;
    assert forall i | 0 <= i < |first| :: first[i] == episodes[i] && first[i] in episodes;
    assert forall i | 0 <= i < |others| :: others[i] in others;
    forall x, y | x in capped && x.episode && y in rows && y.episode && y !in capped ensures Earlier(rows, x, y) {
      assert x in first;
      var i :| 0 <= i < |first| && first[i] == x;
      assert y !in first;
      var k :| 0 <= k < |episodes| && episodes[k] == y;
      assert k >= |first|;
    }
  }

  // ---------------------------------------------------------------- the rows shown

  /** Unless there are too many, every row; otherwise exactly those with too few rows ahead of them. */
  ghost predicate Selected(rows: seq<Row>, hits: set<string>, kept: seq<Row>) {
    if |rows| <= EVIDENCE_MAX_ROWS then kept == rows
    else
      && |kept| == EVIDENCE_MAX_ROWS && NoRepeats(kept) && StablySorted(kept, rows, Priority(hits))
      && forall x :: x in kept <==> x in rows && |Ahead(rows, Priority(hits), x)| < EVIDENCE_MAX_ROWS
  }

  /** No row dropped outranks one that was kept, and among equals the earlier one was kept. */
  lemma NoneOutranked(rows: seq<Row>, hits: set<string>, kept: seq<Row>, x: Row, y: Row)
    requires NoRepeats(rows) && Selected(rows, hits, kept) && x in kept && y in rows && y !in kept
    ensures !Outranks(y, x, hits)
    ensures !Outranks(x, y, hits) ==> Earlier(rows, x, y)
    ensures !Priority(hits)(y, x) && Before(rows, Priority(hits), x, y)
  {
    var less := Priority(hits);
    OrdersRank(hits);
    PriorityMeaning(hits, x, y);
    PriorityMeaning(hits, y, x);
    if |rows| > EVIDENCE_MAX_ROWS && !Before(rows, less, x, y) {
      Comparable(rows, less, x, y);
      AheadOfAhead(rows, less, y, x);
    }
  }

  lemma Comparable(rows: seq<Row>, less: Order<Row>, x: Row, y: Row)
    requires Tiers(less) && x in rows && y in rows && x != y
    ensures Before(rows, less, x, y) || Before(rows, less, y, x)
  {
    var i :| 0 <= i < |rows| && rows[i] == x;
    var k :| 0 <= k < |rows| && rows[k] == y;
    assert Earlier(rows, if i < k then x else y, if i < k then y else x);
  }

  /** What goes before `y` goes before all that `y` goes before. */
  lemma AheadOfAhead(rows: seq<Row>, less: Order<Row>, y: Row, x: Row)
    requires Tiers(less) && NoRepeats(rows) && Before(rows, less, y, x) && x != y && y in rows
    ensures |Ahead(rows, less, y)| < |Ahead(rows, less, x)|
  {
    forall z | z in Ahead(rows, less, y) ensures z in Ahead(rows, less, x) {
      if Earlier(rows, z, y) && Earlier(rows, y, x) { EarlierTransitive(rows, z, y, x); }
      if z == x { NotBothBefore(rows, less, x, y); }
    }
    var rest := Ahead(rows, less, x) - {y};
    assert Ahead(rows, less, y) <= rest;
    SubsetIsSmaller(Ahead(rows, less, y), rest);
  }

  lemma EarlierTransitive(rows: seq<Row>, x: Row, y: Row, z: Row)
    requires NoRepeats(rows) && Earlier(rows, x, y) && Earlier(rows, y, z)
    ensures Earlier(rows, x, z)
  {
  }

  /** The rows put first, before and after which the order is chronological. */
  function Promoted(keywordIds: set<string>, enumeration: bool, prioritized: set<string>): set<string> {
    if prioritized != {} then prioritized else if enumeration then keywordIds else {}
  }

  /** Taking some rows out to the front is a stable sort by whether they lead. */
  lemma PromotionSorts(rows: seq<Row>, ids: set<string>, keep: Row -> bool)
    requires forall x: Row :: keep(x) <==> x.id in ids
    ensures StablySorted(Filter(rows, keep) + Filter(rows, Others(keep)), rows, Leading(ids))
    ensures multiset(Filter(rows, keep) + Filter(rows, Others(keep))) == multiset(rows)
  {
    FilterKeepsOrder(rows, keep);
    FilterKeepsOrder(rows, Others(keep));
    FilterSplits(rows, keep);
    var leading, rest := Filter(rows, keep), Filter(rows, Others(keep));
    assert forall i | 0 <= i < |leading| :: leading[i] in leading;
    assert forall i | 0 <= i < |rest| :: rest[i] in rest;
  }

  /** The rows kept, ranked by three stable sorts from the least to the most important order, then cut. */
  method SelectRows(evidence: seq<Row>, hits: set<string>) returns (rows: seq<Row>)
    requires NoRepeats(evidence)
    ensures Selected(Capped(evidence), hits, rows)
  {
    rows := Capped(evidence);
    if |rows| > EVIDENCE_MAX_ROWS {
      ghost var origin := rows;
      CappedMeaning(evidence);
      OrdersRank(hits);
      hide Tiers, StablySorted, NoRepeats;
      StableSortSorts(rows, NewerFirst);
      rows := StableSort(rows, NewerFirst);
      ghost var newest := rows;
      StableSortSorts(rows, HigherScoreFirst);
      rows := StableSort(rows, HigherScoreFirst);
      SortsCompose(origin, newest, rows, HigherScoreFirst, NewerFirst);
      ghost var scored := rows;
      StableSortSorts(rows, Leading(hits));
      rows := StableSort(rows, Leading(hits));
      SortsCompose(origin, scored, rows, Leading(hits), Then(HigherScoreFirst, NewerFirst));
      CutSelects(origin, hits, rows);
      rows := rows[..EVIDENCE_MAX_ROWS];
    }
  }

  lemma CutSelects(origin: seq<Row>, hits: set<string>, ranked: seq<Row>)
    requires NoRepeats(origin) && multiset(ranked) == multiset(origin) && |origin| > EVIDENCE_MAX_ROWS
    requires StablySorted(ranked, origin, Priority(hits))
    ensures |ranked| == |origin| && Selected(origin, hits, ranked[..EVIDENCE_MAX_ROWS])
  {
    var kept := ranked[..EVIDENCE_MAX_ROWS];
    OrdersRank(hits);
    SameElements(ranked, origin);
    PermutedDistinct(origin, ranked);
    assert |ranked| == |multiset(ranked)| == |origin|;
    forall x ensures x in kept <==> x in origin && |Ahead(origin, Priority(hits), x)| < EVIDENCE_MAX_ROWS {
      if x in origin { FirstElements(origin, ranked, Priority(hits), EVIDENCE_MAX_ROWS, x); }
    }
  }

  /** The selected rows and no others, the promoted ones first, then chronological, ties as they were selected. */
  ghost predicate Shown(
    evidence: seq<Row>, keywordIds: set<string>, enumeration: bool, prioritized: set<string>, rows: seq<Row>)
  {
    exists kept ::
      && Selected(Capped(evidence), keywordIds + prioritized, kept)
      && multiset(rows) == multiset(kept)
      && StablySorted(rows, kept, Then(Leading(Promoted(keywordIds, enumeration, prioritized)), Chronological))
  }

  /** Oldest first, rows written at one event in the order they were written, rows without a time last. */
  ghost predicate Older(x: Row, y: Row) {
    if x.eventTime == 0 || y.eventTime == 0 then y.eventTime == 0 && x.eventTime != 0
    else if x.eventTime != y.eventTime then x.eventTime < y.eventTime
    else x.writtenAt < y.writtenAt
  }

  ghost predicate IsPromoted(x: Row, keywordIds: set<string>, enumeration: bool, prioritized: set<string>) {
    if prioritized != {} then x.id in prioritized else enumeration && x.id in keywordIds
  }

  /** In the rows shown nothing promoted comes after what is not, and among either nothing comes after a newer row. */
  lemma ShownInOrder(
    evidence: seq<Row>, keywordIds: set<string>, enumeration: bool, prioritized: set<string>, rows: seq<Row>,
    i: nat, k: nat)
    requires Shown(evidence, keywordIds, enumeration, prioritized, rows) && i < k < |rows|
    ensures IsPromoted(rows[k], keywordIds, enumeration, prioritized) ==>
              IsPromoted(rows[i], keywordIds, enumeration, prioritized)
    ensures (IsPromoted(rows[i], keywordIds, enumeration, prioritized) <==>
               IsPromoted(rows[k], keywordIds, enumeration, prioritized)) ==> !Older(rows[k], rows[i])
  {
    hide Selected;
    var kept :|
      && Selected(Capped(evidence), keywordIds + prioritized, kept)
      && multiset(rows) == multiset(kept)
      && StablySorted(rows, kept, Then(Leading(Promoted(keywordIds, enumeration, prioritized)), Chronological));
    var ids := Promoted(keywordIds, enumeration, prioritized);
    assert !Then(Leading(ids), Chronological)(rows[k], rows[i]);
    assert Leading(ids)(rows[k], rows[i]) <==> rows[k].id in ids && rows[i].id !in ids;
    assert Chronological(rows[k], rows[i]) <==> Older(rows[k], rows[i]);
  }

  /** The evidence of a prompt. */
  method ShownRows(evidence: seq<Row>, keywordIds: set<string>, enumeration: bool, prioritized: set<string>)
    returns (rows: seq<Row>)
    requires forall i, k | 0 <= i < k < |evidence| :: evidence[i].id != evidence[k].id
    ensures Shown(evidence, keywordIds, enumeration, prioritized, rows)
  {
    assert NoRepeats(evidence);
    rows := SelectRows(evidence, keywordIds + prioritized);
    ghost var kept := rows;
    OrdersRank({});
    StableSortSorts(rows, Chronological);
    rows := StableSort(rows, Chronological);
    ghost var dated := rows;
    ghost var ids := Promoted(keywordIds, enumeration, prioritized);
    if prioritized != {} {
      var leads := (x: Row) => x.id in prioritized;
      PromotionSorts(rows, prioritized, leads);
      rows := Filter(rows, leads) + Filter(rows, Others(leads));
    } else if enumeration && keywordIds != {} {
      var leads := (x: Row) => x.id in keywordIds;
      PromotionSorts(rows, keywordIds, leads);
      rows := Filter(rows, leads) + Filter(rows, Others(leads));
    } else {
      NothingLeads(rows);
    }
    SortsCompose(kept, dated, rows, Leading(ids), Chronological);
  }

  lemma NothingLeads(rows: seq<Row>)
    ensures StablySorted(rows, rows, Leading({}))
  {
    forall i, k | 0 <= i < k < |rows| ensures Earlier(rows, rows[i], rows[k]) {
    }
  }
}
