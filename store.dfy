/**
 * The read-only dictionary store as the request path sees it, and the join in
 * both statements: each VALUES row `(字頭, 字頭編號)` is matched against the
 * full-text table `langs`, and the matching entries are joined to `info_rowid`
 * on the language short code to obtain the numeric language id. The full-text
 * MATCH itself is abstracted into `index`: for a bound character text, the
 * entries the engine returns for it.
 */
module Store {
  import opened Wrappers
  import opened Response
  import opened Request

  /** A SQLite value of an `info` or `build_version` column (REAL left out). */
  datatype SqlValue = SNull | SInt(i: int) | SText(s: string)

  /** A SQLite value as `json_array` and `json_object` render it: the stored value itself. */
  function SqlJson(v: SqlValue): Json
  {
    match v
    case SNull => JNull
    case SInt(i) => JInt(i)
    case SText(t) => JStr(t)
  }

  /** A record of the full-text table `langs`: language short code 語言, reading 讀音, annotation 註釋. */
  datatype IndexEntry = IndexEntry(lang: string, reading: string, annotation: Option<string>)

  /** A row of `info`, with its ROWID; the names follow the table's columns. */
  datatype InfoRow = InfoRow(
    rowid: int,
    name: SqlValue,          // 語言
    code: SqlValue,          // 簡稱
    atlasOrder: SqlValue,    // 地圖集二排序
    atlasColor: SqlValue,    // 地圖集二顏色
    atlasRegion: SqlValue,   // 地圖集二分區
    yindianOrder: SqlValue,  // 音典排序
    yindianColor: SqlValue,  // 音典顏色
    yindianRegion: SqlValue, // 音典分區
    chenOrder: SqlValue,     // 陳邡排序
    chenColor: SqlValue,     // 陳邡顏色
    chenRegion: SqlValue,    // 陳邡分區
    place: SqlValue,         // 地點
    coords: SqlValue)        // 經緯度

  /**
   * The database file: the full-text index keyed by the bound character text,
   * `info_rowid` (short code to language id; the code is its primary key),
   * `info` in storage order, and the rows of `build_version`.
   */
  datatype Db = Db(
    index: map<string, seq<IndexEntry>>,
    langIds: map<string, int>,
    info: seq<InfoRow>,
    versions: seq<SqlValue>)

  /** A row of the join: character, its 1-based position, language id, reading, annotation. */
  datatype Hit = Hit(ch: string, pos: int, langId: int, reading: string, annotation: Option<string>)

  /** `NOT (註釋 IS NULL OR 註釋 = '')` */
  predicate Annotated(a: Option<string>)
  {
    a.Some? && a.value != ""
  }

  /** The annotation as the wire format carries it: an empty one is no annotation. */
  function Normalized(a: Option<string>): (n: Option<string>)
    ensures n.Some? <==> Annotated(a)
    ensures n.Some? ==> n == a
  {
    if Annotated(a) then a else None
  }

  /** The entries `langs MATCH ('字組:' || t)` returns. */
  function Entries(db: Db, t: string): seq<IndexEntry>
  {
    if t in db.index then db.index[t] else []
  }

  /** Some entry for `t` survives the join with `info_rowid`. */
  predicate Matched(db: Db, t: string)
  {
    exists e :: e in Entries(db, t) && e.lang in db.langIds
  }

  /** Every queried character is matched. */
  predicate AllMatched(db: Db, cs: seq<char>)
  {
    forall j :: 0 <= j < |cs| ==> Matched(db, [cs[j]])
  }

  function HitOf(db: Db, t: string, p: int, e: IndexEntry): Hit
    requires e.lang in db.langIds
  {
    Hit(t, p, db.langIds[e.lang], e.reading, e.annotation)
  }

  /** The entries `es` whose language has an id, in index order: those the inner join with `info_rowid` keeps. */
  function Linked(db: Db, es: seq<IndexEntry>): (ls: seq<IndexEntry>)
    ensures |ls| <= |es|
    ensures forall i :: 0 <= i < |ls| ==> ls[i].lang in db.langIds
  {
    if es == [] then []
    else if es[0].lang in db.langIds then [es[0]] + Linked(db, es[1..])
    else Linked(db, es[1..])
  }

  /** The hits of one VALUES row: its entries whose language has an id, in index order. */
  function RowHits(db: Db, t: string, p: int, es: seq<IndexEntry>): (hs: seq<Hit>)
    ensures |hs| == |Linked(db, es)|
    ensures forall h :: h in hs ==> h.ch == t && h.pos == p && h.langId in db.langIds.Values
    ensures forall h :: h in hs ==> exists e :: e in es && e.lang in db.langIds && h == HitOf(db, t, p, e)
    ensures forall e :: e in es && e.lang in db.langIds ==> HitOf(db, t, p, e) in hs
  {
    if es == [] then []
    else
      var rest := RowHits(db, t, p, es[1..]);
      if es[0].lang in db.langIds then [HitOf(db, t, p, es[0])] + rest else rest
  }

  /**
   * Duplicates are kept and nothing is reordered: the `i`-th hit of a VALUES
   * row comes from the `i`-th entry whose language has an id.
   */
  lemma {:induction false} RowHitsInOrder(db: Db, t: string, p: int, es: seq<IndexEntry>)
    ensures var hs := RowHits(db, t, p, es); var ls := Linked(db, es);
      |hs| == |ls| && forall i :: 0 <= i < |hs| ==> hs[i] == HitOf(db, t, p, ls[i])
  {
    if es != [] {
      RowHitsInOrder(db, t, p, es[1..]);
    }
  }

  /** Rows of the shape `_make_params` produces: a text, then an integer. */
  predicate WellFormedRows(rows: seq<QRow>)
  {
    forall k :: 0 <= k < |rows| ==> rows[k].0.PText? && rows[k].1.PInt?
  }

  function HitsOfRow(db: Db, row: QRow): seq<Hit>
    requires row.0.PText? && row.1.PInt?
  {
    RowHits(db, row.0.text, row.1.n, Entries(db, row.0.text))
  }

  /** The size of the inner join: per VALUES row, its entries in a language that has an id. */
  function JoinSize(db: Db, rows: seq<QRow>): nat
    requires WellFormedRows(rows)
  {
    if rows == [] then 0
    else
      var p := rows[..|rows| - 1];
      assert forall k :: 0 <= k < |p| ==> p[k] == rows[k];
      JoinSize(db, p) + |Linked(db, Entries(db, rows[|rows| - 1].0.text))|
  }

  /**
   * `q JOIN langs ON MATCH JOIN info_rowid ON 語言 = 簡稱`, row by row. The
   * engine promises no order; the statements order the result themselves
   * where it matters.
   */
  function Join(db: Db, rows: seq<QRow>): (hs: seq<Hit>)
    requires WellFormedRows(rows)
    ensures forall h :: h in hs ==> FromSomeRow(db, rows, h)
    ensures forall k, h :: 0 <= k < |rows| && h in HitsOfRow(db, rows[k]) ==> h in hs
    ensures |hs| == JoinSize(db, rows)
  {
    if rows == [] then []
    else
      var p := rows[..|rows| - 1];
      assert WellFormedRows(p) by {
        assert forall k :: 0 <= k < |p| ==> p[k] == rows[k];
      }
      var hs := Join(db, p) + HitsOfRow(db, rows[|rows| - 1]);
      JoinStep(db, rows, p, Join(db, p), hs);
      hs
  }

  /** `h` is a hit of one of the VALUES rows. */
  predicate FromSomeRow(db: Db, rows: seq<QRow>, h: Hit)
    requires WellFormedRows(rows)
  {
    exists k :: 0 <= k < |rows| && h in HitsOfRow(db, rows[k])
  }

  /**
   * One step of the join: from the hits `a` of all rows but the last to the
   * hits of all rows, in both directions of membership.
   */
  lemma JoinStep(db: Db, rows: seq<QRow>, p: seq<QRow>, a: seq<Hit>, hs: seq<Hit>)
    requires WellFormedRows(rows) && rows != [] && p == rows[..|rows| - 1]
    requires WellFormedRows(p) && hs == a + HitsOfRow(db, rows[|rows| - 1])
    requires forall h :: h in a ==> FromSomeRow(db, p, h)
    requires forall k, h :: 0 <= k < |p| && h in HitsOfRow(db, p[k]) ==> h in a
    ensures forall h :: h in hs ==> FromSomeRow(db, rows, h)
    ensures forall k, h :: 0 <= k < |rows| && h in HitsOfRow(db, rows[k]) ==> h in hs
  {
    forall h | h in hs ensures FromSomeRow(db, rows, h) {
      if h in a {
        var k :| 0 <= k < |p| && h in HitsOfRow(db, p[k]);
        assert p[k] == rows[k];
      } else {
        assert h in HitsOfRow(db, rows[|rows| - 1]);
      }
    }
    forall k, h | 0 <= k < |rows| && h in HitsOfRow(db, rows[k]) ensures h in hs {
      if k < |p| {
        assert p[k] == rows[k];
      }
    }
  }

  /**
   * The inner join keeps duplicates: when the other VALUES rows carry other
   * positions than `h`'s, `h` occurs in the join exactly as often as row `k`
   * yields it.
   */
  lemma {:induction false} JoinMultiplicity(db: Db, rows: seq<QRow>, k: nat, h: Hit)
    requires WellFormedRows(rows) && k < |rows|
    requires forall k2 :: 0 <= k2 < |rows| && k2 != k ==> rows[k2].1.n != h.pos
    ensures multiset(Join(db, rows))[h] == multiset(HitsOfRow(db, rows[k]))[h]
  {
    var n := |rows|;
    var p := rows[..n - 1];
    JoinLastRow(db, rows, h);
    if k == n - 1 {
      forall k2 | 0 <= k2 < |p| ensures h !in HitsOfRow(db, p[k2]) {
        assert p[k2] == rows[k2];
      }
      assert h !in Join(db, p);
    } else {
      assert forall k2 :: 0 <= k2 < |p| && k2 != k ==> p[k2] == rows[k2];
      JoinMultiplicity(db, p, k, h);
      assert p[k] == rows[k];
      assert h !in HitsOfRow(db, rows[n - 1]);
    }
  }

  /** The join of all rows counts `h` as the join of all but the last, plus the last row. */
  lemma JoinLastRow(db: Db, rows: seq<QRow>, h: Hit)
    requires WellFormedRows(rows) && rows != []
    ensures WellFormedRows(rows[..|rows| - 1])
    ensures multiset(Join(db, rows))[h]
      == multiset(Join(db, rows[..|rows| - 1]))[h] + multiset(HitsOfRow(db, rows[|rows| - 1]))[h]
  {
    var p := rows[..|rows| - 1];
    assert forall i :: 0 <= i < |p| ==> p[i] == rows[i];
    assert Join(db, rows) == Join(db, p) + HitsOfRow(db, rows[|rows| - 1]);
  }

  /** In the join for `cs`, a hit at a queried position occurs as often as that position's own row yields it. */
  lemma {:induction false} JoinOfQueryMultiplicity(db: Db, cs: seq<char>, j: nat, h: Hit)
    requires j < |cs| && h.pos == j + 1
    ensures WellFormedRows(Enumerate(cs))
    ensures multiset(Join(db, Enumerate(cs)))[h] == multiset(RowHits(db, [cs[j]], j + 1, Entries(db, [cs[j]])))[h]
  {
    EnumerateWellFormed(cs);
    EnumerateOtherPositions(cs, h.pos);
    JoinMultiplicity(db, Enumerate(cs), j, h);
    EnumeratedRowHits(db, cs, j);
  }

  /** The hits of the `j`-th VALUES row are those of the `j`-th character at position `j + 1`. */
  lemma EnumeratedRowHits(db: Db, cs: seq<char>, j: nat)
    requires j < |cs|
    ensures WellFormedRows(Enumerate(cs))
    ensures HitsOfRow(db, Enumerate(cs)[j]) == RowHits(db, [cs[j]], j + 1, Entries(db, [cs[j]]))
  {
    EnumerateWellFormed(cs);
    EnumerateAt(cs, j);
  }

  /** The `j`-th VALUES row is the `j`-th character at position `j + 1`. */
  lemma EnumerateAt(cs: seq<char>, j: nat)
    requires j < |cs|
    ensures Enumerate(cs)[j] == (PText([cs[j]]), PInt(j + 1))
  {
  }

  /** Only the row at index `p - 1` carries position `p`. */
  lemma EnumerateOtherPositions(cs: seq<char>, p: int)
    ensures forall k :: 0 <= k < |cs| && k != p - 1 ==> Enumerate(cs)[k].1 != PInt(p)
  {
  }

  lemma EnumerateWellFormed(cs: seq<char>)
    ensures WellFormedRows(Enumerate(cs))
  {
  }

  /** Every hit of the join for `cs` belongs to a queried position and carries its character. */
  lemma {:induction false} JoinHitsBelong(db: Db, cs: seq<char>)
    ensures WellFormedRows(Enumerate(cs))
    ensures forall h :: h in Join(db, Enumerate(cs)) ==>
      1 <= h.pos <= |cs| && h.ch == [cs[h.pos - 1]] && h.langId in db.langIds.Values
  {
    var rows := Enumerate(cs);
    EnumerateWellFormed(cs);
    forall h | h in Join(db, rows)
      ensures 1 <= h.pos <= |cs| && h.ch == [cs[h.pos - 1]] && h.langId in db.langIds.Values
    {
      JoinHitBelongs(db, cs, h);
    }
  }

  /** One hit at a time: a hit of the join for `cs` sits at a queried position and carries its character. */
  lemma JoinHitBelongs(db: Db, cs: seq<char>, h: Hit)
    requires WellFormedRows(Enumerate(cs)) && h in Join(db, Enumerate(cs))
    ensures 1 <= h.pos <= |cs| && h.ch == [cs[h.pos - 1]] && h.langId in db.langIds.Values
  {
    var rows := Enumerate(cs);
    assert FromSomeRow(db, rows, h);
    var k :| 0 <= k < |rows| && h in HitsOfRow(db, rows[k]);
    assert rows[k] == (PText([cs[k]]), PInt(k + 1));
    RowHitBelongs(db, cs, k, h);
  }

  /** A hit of the `k`-th VALUES row sits at position `k + 1` and carries that character. */
  lemma RowHitBelongs(db: Db, cs: seq<char>, k: nat, h: Hit)
    requires k < |cs| && h in HitsOfRow(db, (PText([cs[k]]), PInt(k + 1)))
    ensures h.pos == k + 1 && h.ch == [cs[k]] && h.langId in db.langIds.Values
  {
  }

  /** A matched character yields a hit at its position. */
  lemma {:induction false} MatchedGivesHit(db: Db, cs: seq<char>, i: nat) returns (h: Hit)
    requires i < |cs| && Matched(db, [cs[i]])
    ensures WellFormedRows(Enumerate(cs))
    ensures h in Join(db, Enumerate(cs)) && h.pos == i + 1 && h.ch == [cs[i]]
  {
    var rows := Enumerate(cs);
    EnumerateWellFormed(cs);
    var t := [cs[i]];
    assert rows[i] == (PText(t), PInt(i + 1));
    var e :| e in Entries(db, t) && e.lang in db.langIds;
    h := HitOf(db, t, i + 1, e);
    assert h in HitsOfRow(db, rows[i]);
  }

  /** A hit carrying a character's text shows that character is matched. */
  lemma {:induction false} HitShowsMatched(db: Db, cs: seq<char>, h: Hit)
    requires WellFormedRows(Enumerate(cs))
    requires h in Join(db, Enumerate(cs))
    ensures Matched(db, h.ch)
  {
    var rows := Enumerate(cs);
    assert FromSomeRow(db, rows, h);
    var k :| 0 <= k < |rows| && h in HitsOfRow(db, rows[k]);
    assert rows[k] == (PText([cs[k]]), PInt(k + 1));
    RowHitBelongs(db, cs, k, h);
    RowHitMatched(db, [cs[k]], k + 1, h);
  }

  /** A hit of a VALUES row shows that its text is matched. */
  lemma RowHitMatched(db: Db, t: string, p: int, h: Hit)
    requires h in RowHits(db, t, p, Entries(db, t))
    ensures Matched(db, t)
  {
    var e :| e in Entries(db, t) && e.lang in db.langIds && h == HitOf(db, t, p, e);
  }

  /**
   * The join of the VALUES table for `cs`: every hit belongs to a queried
   * position and carries that position's character, and a position (or a
   * character's column) has hits exactly when the store has an entry for it
   * in a language that has an id.
   */
  lemma {:induction false} JoinOfQuery(db: Db, cs: seq<char>)
    ensures WellFormedRows(Enumerate(cs))
    ensures forall h :: h in Join(db, Enumerate(cs)) ==>
      1 <= h.pos <= |cs| && h.ch == [cs[h.pos - 1]] && h.langId in db.langIds.Values
    ensures forall i :: 0 <= i < |cs| ==>
      ((exists h :: h in Join(db, Enumerate(cs)) && h.pos == i + 1) <==> Matched(db, [cs[i]]))
    ensures forall i :: 0 <= i < |cs| ==>
      ((exists h :: h in Join(db, Enumerate(cs)) && h.ch == [cs[i]]) <==> Matched(db, [cs[i]]))
  {
    JoinHitsBelong(db, cs);
    forall i | 0 <= i < |cs|
      ensures (exists h :: h in Join(db, Enumerate(cs)) && h.pos == i + 1) <==> Matched(db, [cs[i]])
      ensures (exists h :: h in Join(db, Enumerate(cs)) && h.ch == [cs[i]]) <==> Matched(db, [cs[i]])
    {
      PositionHitIffMatched(db, cs, i);
      ColumnHitIffMatched(db, cs, i);
    }
  }

  lemma {:induction false} PositionHitIffMatched(db: Db, cs: seq<char>, i: nat)
    requires i < |cs|
    ensures WellFormedRows(Enumerate(cs))
    ensures (exists h :: h in Join(db, Enumerate(cs)) && h.pos == i + 1) <==> Matched(db, [cs[i]])
  {
    JoinHitsBelong(db, cs);
    if Matched(db, [cs[i]]) {
      var h := MatchedGivesHit(db, cs, i);
    }
    if h :| h in Join(db, Enumerate(cs)) && h.pos == i + 1 {
      HitShowsMatched(db, cs, h);
    }
  }

  lemma {:induction false} ColumnHitIffMatched(db: Db, cs: seq<char>, i: nat)
    requires i < |cs|
    ensures WellFormedRows(Enumerate(cs))
    ensures (exists h :: h in Join(db, Enumerate(cs)) && h.ch == [cs[i]]) <==> Matched(db, [cs[i]])
  {
    EnumerateWellFormed(cs);
    if Matched(db, [cs[i]]) {
      var h := MatchedGivesHit(db, cs, i);
    }
    if h :| h in Join(db, Enumerate(cs)) && h.ch == [cs[i]] {
      HitShowsMatched(db, cs, h);
    }
  }
}
