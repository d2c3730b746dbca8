/**
 * How the two request handlers relate: main.py (grouped form) and
 * server/app.py (pivot form) bind the same VALUES table and run the same
 * join, and differ in the character limit, the start-up version guard, the
 * shape of the answer and the language listing.
 */
module Variants {
  import opened Wrappers
  import opened Response
  import opened Request
  import opened Store
  import Grouped
  import Pivot

  /** Both forms bind `_make_params` to the same VALUES rows and so join the same hits. */
  lemma SameJoin(db: Db, cs: seq<char>)
    requires |cs| >= 1
    ensures multiset(Pivot.QueryHits(db, cs)) == multiset(Grouped.LookupHits(db, cs))
  {
    EnumerateWellFormed(cs);
    var hits := Join(db, Enumerate(cs));
    assert Pivot.QueryHits(db, cs) == hits;
    assert Grouped.LookupHits(db, cs) == Grouped.SortHits(hits);
  }

  /**
   * For the same accepted input, server/app.py answers a table exactly when
   * main.py's answer has a group at every queried position.
   */
  lemma PivotOkIffEveryPositionGrouped(s: string, version: string, db: Db)
    requires Strip(s) != [] && |Dedup(Strip(s))| <= Pivot.MaxChars
    ensures var cs := Dedup(Strip(s));
      Pivot.QueryChars(Some(s), Some(version), db).Ok? <==>
        Grouped.AllGrouped(Grouped.GroupByPosition(Grouped.LookupHits(db, cs)), |cs|)
  {
    Pivot.QuerySucceedsIff(s, version, db);
    Grouped.AllGroupedIffAllMatched(db, Dedup(Strip(s)));
  }

  /** Between 129 and 512 distinct characters, server/app.py refuses what main.py looks up. */
  lemma LimitsDiffer(s: string, version: string, db: Db)
    requires Strip(s) != [] && Pivot.MaxChars < |Dedup(Strip(s))| <= Grouped.MaxChars
    ensures Pivot.QueryChars(Some(s), Some(version), db) == Fail(400, "too many chars; max=128")
    ensures Grouped.QueryChars(Some(s), db).Ok?
  {
    Pivot.ValidationOrder(Some(s), Some(version), db);
  }

  /**
   * Only server/app.py depends on start-up: without a version every present
   * argument is a 500 there, while main.py has no such guard and its guards
   * answer only 400 (store errors are not part of this model).
   */
  lemma VersionGuardOnlyInServer(chars: Option<string>, db: Db)
    ensures chars.Some? ==> Pivot.QueryChars(chars, None, db) == Fail(500, "Build version not initialized")
    ensures Grouped.QueryChars(chars, db).Fail? ==> Grouped.QueryChars(chars, db).status == 400
  {
  }

  /** main.py lists the same columns as server/app.py except 地點, the 13th. */
  lemma ListingColumns(r: InfoRow)
    ensures Grouped.LangRow(r).items == Pivot.LangRow(r).items[..12] + Pivot.LangRow(r).items[13..]
  {
  }

  /** `x` is server/app.py's row for a listed `info[k]`, and main.py's `k`-th row is `x` without 地點. */
  predicate ListedAt(info: seq<InfoRow>, x: Json)
  {
    exists k :: 0 <= k < |info| && Pivot.Listed(info[k]) && x == Pivot.LangRow(info[k]) &&
      Grouped.LangRows(info)[k].items == x.items[..12] + x.items[13..]
  }

  /**
   * Every language server/app.py lists, main.py lists too, at the position
   * of its `info` row, with the same fields but 地點.
   */
  lemma {:induction false} ListingSubset(info: seq<InfoRow>)
    ensures forall x :: x in Pivot.LangRows(info) ==> ListedAt(info, x)
  {
    forall x | x in Pivot.LangRows(info) ensures ListedAt(info, x) {
      var r :| r in info && Pivot.Listed(r) && x == Pivot.LangRow(r);
      var k :| 0 <= k < |info| && info[k] == r;
      ListingColumns(r);
      assert Grouped.LangRows(info)[k] == Grouped.LangRow(r);
    }
  }
}
