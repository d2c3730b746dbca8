/**
 * main.py: the grouped form. The statement's CTEs order the join by
 * (字頭編號, 語言ID) (`hits`), group it by position (`grouped`) turning each hit
 * into a detail entry, and gather the groups into `[字頭, 明細]` pairs
 * (`payload`) inside `{version, data}`.
 */
module Grouped {
  import opened Wrappers
  import opened Response
  import opened Request
  import opened Store

  /** `MAX_CHARS` in main.py. */
  const MaxChars: nat := 512

  // ---------------------------------------------------------------------
  // hits: ORDER BY q.字頭編號, r.語言ID

  predicate KeyLe(a: Hit, b: Hit)
  {
    a.pos < b.pos || (a.pos == b.pos && a.langId <= b.langId)
  }

  predicate SortedHits(s: seq<Hit>)
  {
    forall i, j :: 0 <= i < j < |s| ==> KeyLe(s[i], s[j])
  }

  function InsertHit(h: Hit, s: seq<Hit>): (r: seq<Hit>)
    requires SortedHits(s)
    ensures SortedHits(r)
    ensures multiset(r) == multiset(s) + multiset{h}
  {
    if s == [] || KeyLe(h, s[0]) then
      SortedCons(h, s);
      [h] + s
    else
      var rest := InsertHit(h, s[1..]);
      assert s == [s[0]] + s[1..];
      BelowAll(s, h, rest);
      SortedCons(s[0], rest);
      [s[0]] + rest
  }

  lemma SortedCons(x: Hit, s: seq<Hit>)
    requires SortedHits(s)
    requires s == [] || KeyLe(x, s[0])
    ensures SortedHits([x] + s)
  {
    var r := [x] + s;
    forall i, j | 0 <= i < j < |r| ensures KeyLe(r[i], r[j]) {
      if i == 0 && j > 1 { assert KeyLe(s[0], s[j - 1]); }
    }
  }

  /** The head of an ordered sequence stays below whatever is inserted after it. */
  lemma BelowAll(s: seq<Hit>, h: Hit, rest: seq<Hit>)
    requires s != [] && SortedHits(s) && !KeyLe(h, s[0])
    requires multiset(rest) == multiset(s[1..]) + multiset{h}
    ensures rest == [] || KeyLe(s[0], rest[0])
  {
    if rest != [] {
      var x := rest[0];
      assert x in multiset(rest);
      if x != h {
        assert x in multiset(s[1..]);
        var m :| 0 <= m < |s| - 1 && s[1..][m] == x;
        assert s[m + 1] == x;
      }
    }
  }

  /** `ORDER BY 字頭編號, 語言ID`: the same hits, ordered by position and then language id. */
  function SortHits(s: seq<Hit>): (r: seq<Hit>)
    ensures SortedHits(r)
    ensures multiset(r) == multiset(s)
  {
    if s == [] then []
    else
      assert s == [s[0]] + s[1..];
      InsertHit(s[0], SortHits(s[1..]))
  }

  // ---------------------------------------------------------------------
  // grouped: GROUP BY 字頭編號

  /** One output group: the character, its position and its hits. */
  datatype Group = Group(ch: string, pos: int, members: seq<Hit>)

  /** How many leading hits sit at position `p`. */
  function SpanLength(hits: seq<Hit>, p: int): (k: nat)
    ensures k <= |hits|
    ensures forall i :: 0 <= i < k ==> hits[i].pos == p
    ensures k < |hits| ==> hits[k].pos != p
  {
    if hits == [] || hits[0].pos != p then 0 else 1 + SpanLength(hits[1..], p)
  }

  /** The hits of all groups, in group order. */
  function Members(gs: seq<Group>): seq<Hit>
  {
    if gs == [] then [] else gs[0].members + Members(gs[1..])
  }

  /**
   * One group per run of hits at the same position, in order. The group's
   * 字頭 is taken from its first hit (every hit of a position carries the same
   * character).
   */
  function GroupByPosition(hits: seq<Hit>): (gs: seq<Group>)
    ensures Members(gs) == hits
    ensures forall k :: 0 <= k < |gs| ==> gs[k].members != [] && gs[k].ch == gs[k].members[0].ch
    ensures forall k, m :: 0 <= k < |gs| && m in gs[k].members ==> m.pos == gs[k].pos
    ensures forall i, j {:trigger gs[i], gs[j]} :: 0 <= i && j == i + 1 && j < |gs| ==> gs[i].pos != gs[j].pos
    ensures hits != [] ==> gs != [] && gs[0].pos == hits[0].pos
    decreases |hits|
  {
    if hits == [] then []
    else
      var k := SpanLength(hits, hits[0].pos);
      var rest := GroupByPosition(hits[k..]);
      assert hits == hits[..k] + hits[k..];
      [Group(hits[0].ch, hits[0].pos, hits[..k])] + rest
  }

  lemma {:induction false} MembersContain(gs: seq<Group>, h: Hit)
    ensures h in Members(gs) <==> exists k :: 0 <= k < |gs| && h in gs[k].members
  {
    if gs != [] {
      MembersContain(gs[1..], h);
      if h in Members(gs[1..]) {
        var k :| 0 <= k < |gs[1..]| && h in gs[1..][k].members;
        assert h in gs[k + 1].members;
      }
      if k :| 0 <= k < |gs| && h in gs[k].members {
        if k > 0 { assert gs[1..][k - 1] == gs[k]; }
      }
    }
  }

  /** Over hits ordered by position, the groups' positions strictly increase: one group per position. */
  lemma {:induction false} GroupsAscend(hits: seq<Hit>)
    requires SortedHits(hits)
    ensures var gs := GroupByPosition(hits);
      forall i, j :: 0 <= i < j < |gs| ==> gs[i].pos < gs[j].pos
    ensures forall g :: g in GroupByPosition(hits) ==> hits[0].pos <= g.pos
    decreases |hits|
  {
    if hits != [] {
      var k := SpanLength(hits, hits[0].pos);
      var tail := hits[k..];
      assert SortedHits(tail);
      GroupsAscend(tail);
      var gs := GroupByPosition(hits);
      assert gs[1..] == GroupByPosition(tail);
      if tail != [] {
        assert KeyLe(hits[0], hits[k]);
        assert hits[0].pos < tail[0].pos;
      }
      forall i, j | 0 <= i < j < |gs| ensures gs[i].pos < gs[j].pos {
        assert gs[j] == gs[1..][j - 1];
        if i == 0 {
          assert tail != [];
          assert gs[j] in GroupByPosition(tail);
          assert tail[0].pos <= gs[j].pos;
        } else {
          assert gs[i] == gs[1..][i - 1];
        }
      }
    }
  }

  /** Over hits ordered by (position, language id), every group lists its languages in ascending id order. */
  lemma {:induction false} GroupMembersByLanguage(hits: seq<Hit>)
    requires SortedHits(hits)
    ensures var gs := GroupByPosition(hits);
      forall k, i, j :: 0 <= k < |gs| && 0 <= i < j < |gs[k].members| ==>
        gs[k].members[i].langId <= gs[k].members[j].langId
    decreases |hits|
  {
    if hits != [] {
      var n := SpanLength(hits, hits[0].pos);
      var tail := hits[n..];
      assert SortedHits(tail);
      GroupMembersByLanguage(tail);
      var gs := GroupByPosition(hits);
      assert gs[1..] == GroupByPosition(tail);
      forall k, i, j | 0 <= k < |gs| && 0 <= i < j < |gs[k].members|
        ensures gs[k].members[i].langId <= gs[k].members[j].langId
      {
        if k == 0 {
          assert KeyLe(hits[i], hits[j]);
        } else {
          assert gs[k] == gs[1..][k - 1];
        }
      }
    }
  }

  // ---------------------------------------------------------------------
  // the detail entries and the payload

  /** `json_array(語言ID, 讀音)` or, with an annotation, `json_array(語言ID, 讀音, 註釋)`. */
  function Detail(h: Hit): Json
  {
    if Annotated(h.annotation) then JArr([JInt(h.langId), JStr(h.reading), JStr(h.annotation.value)])
    else JArr([JInt(h.langId), JStr(h.reading)])
  }

  /** How a client reads a detail entry back, telling the two forms apart by length. */
  function DecodeDetail(j: Json): Option<(int, string, Option<string>)>
  {
    match j
    case JArr(items) =>
      if |items| == 2 && items[0].JInt? && items[1].JStr? then
        Some((items[0].i, items[1].s, None))
      else if |items| == 3 && items[0].JInt? && items[1].JStr? && items[2].JStr? then
        Some((items[0].i, items[1].s, Some(items[2].s)))
      else None
    case _ => None
  }

  /**
   * A detail entry has exactly two elements without an annotation and three
   * with one, and reading it back restores the hit's language id, reading
   * and (normalised) annotation.
   */
  lemma DetailRoundTrip(h: Hit)
    ensures Detail(h).JArr? && |Detail(h).items| == (if Annotated(h.annotation) then 3 else 2)
    ensures DecodeDetail(Detail(h)) == Some((h.langId, h.reading, Normalized(h.annotation)))
  {
  }

  /** `json_array(字頭, json(明細))` */
  function Entry(g: Group): Json
  {
    JArr([JStr(g.ch), JArr(seq(|g.members|, i requires 0 <= i < |g.members| => Detail(g.members[i])))])
  }

  /** `payload`: one entry per group, in group order. */
  function GroupedData(gs: seq<Group>): seq<Json>
  {
    seq(|gs|, k requires 0 <= k < |gs| => Entry(gs[k]))
  }

  /**
   * The payload has one `[字頭, 明細]` entry per group, in group order, and
   * each detail of an entry reads back as the language id, reading and
   * annotation of the group's hit at the same index.
   */
  lemma GroupedDataShape(gs: seq<Group>)
    ensures |GroupedData(gs)| == |gs|
    ensures forall k :: 0 <= k < |gs| ==>
      GroupedData(gs)[k].JArr? && |GroupedData(gs)[k].items| == 2 && GroupedData(gs)[k].items[0] == JStr(gs[k].ch) &&
      GroupedData(gs)[k].items[1].JArr? && |GroupedData(gs)[k].items[1].items| == |gs[k].members|
    ensures forall k, i :: 0 <= k < |gs| && 0 <= i < |gs[k].members| ==>
      DecodeDetail(GroupedData(gs)[k].items[1].items[i]) ==
        Some((gs[k].members[i].langId, gs[k].members[i].reading, Normalized(gs[k].members[i].annotation)))
  {
    forall k, i | 0 <= k < |gs| && 0 <= i < |gs[k].members|
      ensures DecodeDetail(GroupedData(gs)[k].items[1].items[i]) ==
        Some((gs[k].members[i].langId, gs[k].members[i].reading, Normalized(gs[k].members[i].annotation)))
    {
      DetailRoundTrip(gs[k].members[i]);
    }
  }

  // ---------------------------------------------------------------------
  // _query_chars_sync

  /** The ordered `hits` CTE for the de-duplicated characters `cs`; `GroupByPosition` of it is the `grouped` CTE. */
  function LookupHits(db: Db, cs: seq<char>): seq<Hit>
    requires |cs| >= 1
  {
    EnumerateWellFormed(cs);
    SortHits(Join(db, BoundRows(GroupedForm, cs)))
  }

  lemma LookupHitsSorted(db: Db, cs: seq<char>)
    requires |cs| >= 1
    ensures SortedHits(LookupHits(db, cs))
  {
  }

  /** The ordered hits are the join's hits. */
  lemma LookupHitsAreJoin(db: Db, cs: seq<char>)
    requires |cs| >= 1
    ensures WellFormedRows(Enumerate(cs))
    ensures SortedHits(LookupHits(db, cs))
    ensures multiset(LookupHits(db, cs)) == multiset(Join(db, Enumerate(cs)))
    ensures forall h :: h in LookupHits(db, cs) <==> h in Join(db, Enumerate(cs))
  {
    EnumerateWellFormed(cs);
    var hits := LookupHits(db, cs);
    var joined := Join(db, Enumerate(cs));
    assert hits == SortHits(joined);
    forall h ensures h in hits <==> h in joined {
      assert h in hits <==> h in multiset(hits);
      assert h in joined <==> h in multiset(joined);
    }
  }

  /**
   * `_query_chars_sync(chars)` of main.py: 400 when `chars` is missing, `[]`
   * when nothing is left after stripping, 400 above `MAX_CHARS` distinct
   * characters, and otherwise the single result row of the statement: `[]`
   * when `build_version` is empty, else `{version, data}`.
   */
  function QueryChars(chars: Option<string>, db: Db): Outcome
  {
    if chars.None? then Fail(400, "chars is required")
    else
      var s := Strip(chars.value);
      if s == [] then Ok(JArr([]))
      else
        var cs := Dedup(s);
        if |cs| > MaxChars then Fail(400, TooManyDetail(MaxChars))
        else if db.versions == [] then Ok(JArr([]))
        else Ok(Envelope(SqlJson(db.versions[0]), GroupedData(GroupByPosition(LookupHits(db, cs)))))
  }

  /** The guards of main.py, in order: a missing argument, blank input, too many characters. */
  lemma ValidationOrder(chars: Option<string>, db: Db)
    ensures chars.None? ==> QueryChars(chars, db) == Fail(400, "chars is required")
    ensures chars.Some? && Strip(chars.value) == [] ==> QueryChars(chars, db) == Ok(JArr([]))
    ensures chars.Some? && |Dedup(Strip(chars.value))| > MaxChars ==>
      QueryChars(chars, db) == Fail(400, "too many chars; max=512")
  {
    assert Decimal.NatToText(512) == "512" by {
      assert Decimal.NatToText(51) == "51" by { assert Decimal.NatToText(5) == "5"; }
    }
  }

  /**
   * Input that passes the guards gets `[]` when the statement yields no row
   * (an empty `build_version` leaves nothing to cross-join) and otherwise the
   * stored version around the payload of the groups.
   */
  lemma GroupedAnswer(s: string, db: Db)
    requires Strip(s) != [] && |Dedup(Strip(s))| <= MaxChars
    ensures db.versions == [] ==> QueryChars(Some(s), db) == Ok(JArr([]))
    ensures db.versions != [] ==>
      QueryChars(Some(s), db) == Ok(Envelope(SqlJson(db.versions[0]), GroupedData(GroupByPosition(LookupHits(db, Dedup(Strip(s)))))))
  {
    var t := Strip(s);
    var cs := Dedup(t);
    assert !(|cs| > MaxChars);
  }

  /** A group's first hit is one of the hits, and the group takes its position and character from it. */
  lemma {:induction false} GroupsComeFromHits(hits: seq<Hit>)
    ensures var gs := GroupByPosition(hits);
      forall k :: 0 <= k < |gs| ==>
        gs[k].members[0] in hits && gs[k].pos == gs[k].members[0].pos && gs[k].ch == gs[k].members[0].ch
  {
    var gs := GroupByPosition(hits);
    forall k | 0 <= k < |gs| ensures gs[k].members[0] in hits {
      MembersContain(gs, gs[k].members[0]);
    }
  }

  /** Some group sits at position `p`. */
  predicate HasGroupAt(gs: seq<Group>, p: int)
  {
    exists k :: 0 <= k < |gs| && gs[k].pos == p
  }

  /** Every position from 1 to `n` has a group. */
  predicate AllGrouped(gs: seq<Group>, n: nat)
  {
    forall p :: 1 <= p <= n ==> HasGroupAt(gs, p)
  }

  /** A position has a group exactly when some hit sits at it. */
  lemma {:induction false} GroupAtIffHitAt(hits: seq<Hit>, p: int)
    ensures HasGroupAt(GroupByPosition(hits), p) <==> (exists h :: h in hits && h.pos == p)
  {
    var gs := GroupByPosition(hits);
    GroupsComeFromHits(hits);
    if h :| h in hits && h.pos == p {
      MembersContain(gs, h);
      var k :| 0 <= k < |gs| && h in gs[k].members;
      assert gs[k].pos == p;
    }
  }

  /** Every hit sits at a position of `cs` and carries the character there. */
  predicate HitsAtPositions(hits: seq<Hit>, cs: seq<char>)
  {
    forall h :: h in hits ==> 1 <= h.pos <= |cs| && h.ch == [cs[h.pos - 1]]
  }

  /** Every group sits at a position of `cs` and carries the character there. */
  predicate GroupsAtPositions(gs: seq<Group>, cs: seq<char>)
  {
    forall k :: 0 <= k < |gs| ==> 1 <= gs[k].pos <= |cs| && gs[k].ch == [cs[gs[k].pos - 1]]
  }

  /** Over hits that each carry the character at their position, so does every group. */
  lemma GroupsAtPositionsOf(hits: seq<Hit>, cs: seq<char>)
    requires HitsAtPositions(hits, cs)
    ensures GroupsAtPositions(GroupByPosition(hits), cs)
  {
    var gs := GroupByPosition(hits);
    GroupsComeFromHits(hits);
    forall k | 0 <= k < |gs| ensures 1 <= gs[k].pos <= |cs| && gs[k].ch == [cs[gs[k].pos - 1]] {
      var m := gs[k].members[0];
      assert m in hits;
      assert 1 <= m.pos <= |cs| && m.ch == [cs[m.pos - 1]];
    }
  }

  /** Each group sits at a queried position and carries that position's character. */
  lemma {:induction false} GroupsAtQueriedPositions(db: Db, cs: seq<char>)
    requires |cs| >= 1
    ensures GroupsAtPositions(GroupByPosition(LookupHits(db, cs)), cs)
  {
    LookupHitsAtQueriedPositions(db, cs);
    GroupsAtPositionsOf(LookupHits(db, cs), cs);
  }

  /** Every ordered hit sits at a queried position and carries that position's character. */
  lemma LookupHitsAtQueriedPositions(db: Db, cs: seq<char>)
    requires |cs| >= 1
    ensures HitsAtPositions(LookupHits(db, cs), cs)
  {
    LookupHitsAreJoin(db, cs);
    JoinHitsBelong(db, cs);
  }

  /** The ordered hits have one at position `i + 1` exactly when the store has a reading for its character. */
  lemma HitAtIffMatched(db: Db, cs: seq<char>, i: nat)
    requires i < |cs|
    ensures (exists h :: h in LookupHits(db, cs) && h.pos == i + 1) <==> Matched(db, [cs[i]])
  {
    LookupHitsAreJoin(db, cs);
    JoinOfQuery(db, cs);
  }

  /** Position `i + 1` has a group exactly when the store has a reading for its character. */
  lemma {:induction false} GroupIffMatched(db: Db, cs: seq<char>, i: nat)
    requires i < |cs|
    ensures HasGroupAt(GroupByPosition(LookupHits(db, cs)), i + 1) <==> Matched(db, [cs[i]])
  {
    GroupAtIffHitAt(LookupHits(db, cs), i + 1);
    HitAtIffMatched(db, cs, i);
  }

  lemma {:induction false} GroupsIffMatched(db: Db, cs: seq<char>)
    requires |cs| >= 1
    ensures var gs := GroupByPosition(LookupHits(db, cs));
      forall i :: 0 <= i < |cs| ==> (HasGroupAt(gs, i + 1) <==> Matched(db, [cs[i]]))
  {
    forall i | 0 <= i < |cs|
      ensures HasGroupAt(GroupByPosition(LookupHits(db, cs)), i + 1) <==> Matched(db, [cs[i]])
    {
      GroupIffMatched(db, cs, i);
    }
  }

  /** Every queried position has a group exactly when every queried character has a reading. */
  lemma {:induction false} AllGroupedIffAllMatched(db: Db, cs: seq<char>)
    requires |cs| >= 1
    ensures AllGrouped(GroupByPosition(LookupHits(db, cs)), |cs|) <==> AllMatched(db, cs)
  {
    var gs := GroupByPosition(LookupHits(db, cs));
    GroupsIffMatched(db, cs);
    if AllMatched(db, cs) {
      forall p | 1 <= p <= |cs| ensures HasGroupAt(gs, p) {
        assert Matched(db, [cs[p - 1]]);
      }
    }
    if AllGrouped(gs, |cs|) {
      forall j | 0 <= j < |cs| ensures Matched(db, [cs[j]]) {
        assert HasGroupAt(gs, j + 1);
      }
    }
  }

  /**
   * For input that passes the guards, the groups follow the input order, each
   * carries the character at its position, a character has a group exactly
   * when the store has a reading for it, and the readings within a group are
   * ordered by language id.
   */
  lemma {:induction false} LookupShape(db: Db, cs: seq<char>)
    requires |cs| >= 1
    ensures var gs := GroupByPosition(LookupHits(db, cs)); forall i, j :: 0 <= i < j < |gs| ==> gs[i].pos < gs[j].pos
    ensures GroupsAtPositions(GroupByPosition(LookupHits(db, cs)), cs)
    ensures var gs := GroupByPosition(LookupHits(db, cs));
      forall i :: 0 <= i < |cs| ==> (HasGroupAt(gs, i + 1) <==> Matched(db, [cs[i]]))
    ensures var gs := GroupByPosition(LookupHits(db, cs)); forall k :: 0 <= k < |gs| ==> gs[k].members != []
    ensures var gs := GroupByPosition(LookupHits(db, cs));
      forall k, i, j :: 0 <= k < |gs| && 0 <= i < j < |gs[k].members| ==>
        gs[k].members[i].langId <= gs[k].members[j].langId
  {
    GroupsInInputOrder(db, cs);
    GroupsAtQueriedPositions(db, cs);
    GroupsIffMatched(db, cs);
    GroupsByLanguage(db, cs);
  }

  lemma GroupsInInputOrder(db: Db, cs: seq<char>)
    requires |cs| >= 1
    ensures var gs := GroupByPosition(LookupHits(db, cs)); forall i, j :: 0 <= i < j < |gs| ==> gs[i].pos < gs[j].pos
  {
    LookupHitsSorted(db, cs);
    var hits := LookupHits(db, cs);
    GroupsAscend(hits);
  }

  lemma GroupsByLanguage(db: Db, cs: seq<char>)
    requires |cs| >= 1
    ensures var gs := GroupByPosition(LookupHits(db, cs));
      forall k, i, j :: 0 <= k < |gs| && 0 <= i < j < |gs[k].members| ==>
        gs[k].members[i].langId <= gs[k].members[j].langId
  {
    LookupHitsSorted(db, cs);
    var hits := LookupHits(db, cs);
    GroupMembersByLanguage(hits);
  }

  // ---------------------------------------------------------------------
  // _list_langs_sync

  /** The 13 columns main.py lists per language (no 地點). */
  function LangRow(r: InfoRow): Json
  {
    JArr([JInt(r.rowid), SqlJson(r.name), SqlJson(r.code),
          SqlJson(r.atlasOrder), SqlJson(r.atlasColor), SqlJson(r.atlasRegion),
          SqlJson(r.yindianOrder), SqlJson(r.yindianColor), SqlJson(r.yindianRegion),
          SqlJson(r.chenOrder), SqlJson(r.chenColor), SqlJson(r.chenRegion),
          SqlJson(r.coords)])
  }

  /** `x` is a 13-field row holding the ROWID of `r`, then its stored columns 語言 … 陳邡分區 and 經緯度. */
  predicate StoredFields(x: Json, r: InfoRow)
  {
    && x.JArr? && |x.items| == 13 && x.items[0] == JInt(r.rowid)
    && x.items[1] == SqlJson(r.name) && x.items[2] == SqlJson(r.code)
    && x.items[3] == SqlJson(r.atlasOrder) && x.items[4] == SqlJson(r.atlasColor) && x.items[5] == SqlJson(r.atlasRegion)
    && x.items[6] == SqlJson(r.yindianOrder) && x.items[7] == SqlJson(r.yindianColor) && x.items[8] == SqlJson(r.yindianRegion)
    && x.items[9] == SqlJson(r.chenOrder) && x.items[10] == SqlJson(r.chenColor) && x.items[11] == SqlJson(r.chenRegion)
    && x.items[12] == SqlJson(r.coords)
  }

  /** Every row of `info`, unfiltered, in storage order. */
  function LangRows(info: seq<InfoRow>): (rows: seq<Json>)
    ensures |rows| == |info|
    ensures forall k :: 0 <= k < |rows| ==> StoredFields(rows[k], info[k])
  {
    LangRowStored();
    seq(|info|, k requires 0 <= k < |info| => LangRow(info[k]))
  }

  lemma LangRowStored()
    ensures forall r :: StoredFields(LangRow(r), r)
  {
  }

  /** `_list_langs_sync` of main.py: `[]` without a `build_version` row, else `{version, data}`. */
  function ListLangs(db: Db): (r: Json)
    ensures db.versions == [] ==> r == JArr([])
    ensures db.versions != [] ==> r.JObj? && Keys(r.members) == ["version", "data"]
    ensures db.versions != [] ==> Get(r.members, "version") == Some(SqlJson(db.versions[0]))
    ensures db.versions != [] ==> (Get(r.members, "data").Some? && Get(r.members, "data").value.JArr? &&
      var rows := Get(r.members, "data").value.items;
      |rows| == |db.info| &&
      forall k :: 0 <= k < |rows| ==> StoredFields(rows[k], db.info[k]))
    ensures db.versions != [] ==> Get(r.members, "data") == Some(JArr(LangRows(db.info)))
  {
    if db.versions == [] then JArr([])
    else
      var rows := LangRows(db.info);
      EnvelopeFields(SqlJson(db.versions[0]), rows);
      Envelope(SqlJson(db.versions[0]), rows)
  }
}
