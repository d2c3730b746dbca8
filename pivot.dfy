/**
 * server/app.py: the pivoted form. The statement groups the join by
 * (字頭編號, 語言ID) and turns every group into one cell (the CASE
 * expression); pandas pivots the cells into one row per language id and one
 * column per character, selects the columns in query order and fills the
 * holes with ''. The result is wrapped in `{version, data}` with the version
 * read at start-up.
 */
module Pivot {
  import opened Wrappers
  import opened Response
  import opened Request
  import opened Store
  import Decimal

  /** `MAX_CHARS` in server/app.py. */
  const MaxChars: nat := 128

  /** Name of the index column of the pivot, and so the first header cell. */
  const IdColumn := "語言ID"

  // ---------------------------------------------------------------------
  // the CASE expression

  /** `json_array(l.讀音)` or, with an annotation, `json_array(l.讀音, l.註釋)`. */
  function ReadingEntry(h: Hit): Json
  {
    if Annotated(h.annotation) then JArr([JStr(h.reading), JStr(h.annotation.value)])
    else JArr([JStr(h.reading)])
  }

  /**
   * The cell of one (position, language) group: the bare reading when the
   * group is a single reading without annotation, otherwise the text of
   * `json_group_array` over its entries (a string the client has to parse).
   */
  function CellValue(g: seq<Hit>): Json
    requires g != []
  {
    if |g| == 1 && !Annotated(g[0].annotation) then JStr(g[0].reading)
    else JEncoded(JArr(seq(|g|, i requires 0 <= i < |g| => ReadingEntry(g[i]))))
  }

  /** The readings a cell stands for: reading and normalised annotation, in group order. */
  function Readings(g: seq<Hit>): seq<(string, Option<string>)>
  {
    seq(|g|, i requires 0 <= i < |g| => (g[i].reading, Normalized(g[i].annotation)))
  }

  function DecodeEntry(j: Json): Option<(string, Option<string>)>
  {
    match j
    case JArr(items) =>
      if |items| == 1 && items[0].JStr? then Some((items[0].s, None))
      else if |items| == 2 && items[0].JStr? && items[1].JStr? then Some((items[0].s, Some(items[1].s)))
      else None
    case _ => None
  }

  function DecodeEntries(items: seq<Json>): Option<seq<(string, Option<string>)>>
  {
    if items == [] then Some([])
    else
      match (DecodeEntry(items[0]), DecodeEntries(items[1..]))
      case (Some(e), Some(es)) => Some([e] + es)
      case _ => None
  }

  /** How a client reads a filled cell: a plain string is one reading, encoded text lists them. */
  function DecodeCell(c: Json): Option<seq<(string, Option<string>)>>
  {
    match c
    case JStr(r) => Some([(r, None)])
    case JEncoded(JArr(items)) => DecodeEntries(items)
    case _ => None
  }

  lemma {:induction false} EntriesRoundTrip(g: seq<Hit>)
    ensures DecodeEntries(seq(|g|, i requires 0 <= i < |g| => ReadingEntry(g[i]))) == Some(Readings(g))
  {
    var items := seq(|g|, i requires 0 <= i < |g| => ReadingEntry(g[i]));
    if g != [] {
      assert items[1..] == seq(|g[1..]|, i requires 0 <= i < |g[1..]| => ReadingEntry(g[1..][i]));
      EntriesRoundTrip(g[1..]);
      assert Readings(g) == [(g[0].reading, Normalized(g[0].annotation))] + Readings(g[1..]);
    }
  }

  /**
   * The cell rule: a bare string exactly for one reading without annotation,
   * and whichever form was chosen, reading the cell back gives every reading
   * of the group with its annotation, in order.
   */
  lemma CellRoundTrip(g: seq<Hit>)
    requires g != []
    ensures CellValue(g).JStr? <==> |g| == 1 && !Annotated(g[0].annotation)
    ensures DecodeCell(CellValue(g)) == Some(Readings(g))
  {
    if !(|g| == 1 && !Annotated(g[0].annotation)) {
      EntriesRoundTrip(g);
    } else {
      assert Readings(g) == [(g[0].reading, None)];
    }
  }

  /** Every listed entry has one element without an annotation and two with one. */
  lemma CellEntryArity(g: seq<Hit>)
    requires g != [] && !(|g| == 1 && !Annotated(g[0].annotation))
    ensures CellValue(g).JEncoded? && CellValue(g).doc.JArr?
    ensures |CellValue(g).doc.items| == |g|
    ensures forall i :: 0 <= i < |g| ==>
      (CellValue(g).doc.items[i].JArr? &&
       |CellValue(g).doc.items[i].items| == (if Annotated(g[i].annotation) then 2 else 1))
  {
  }

  /**
   * A single reading that is the empty string gives the same cell as a
   * language with no reading at all: the wire format cannot tell them apart.
   */
  lemma EmptyReadingLooksMissing(h: Hit)
    requires h.reading == "" && !Annotated(h.annotation)
    ensures CellValue([h]) == MissingCell
  {
  }

  // ---------------------------------------------------------------------
  // the pivot

  /** What `fillna('')` puts where a language has no reading for a character. */
  const MissingCell := JStr("")

  /** The hits of one cell: language `id`, character `ch`, in join order. */
  function CellHits(hits: seq<Hit>, id: int, ch: string): (g: seq<Hit>)
    ensures forall h :: h in g <==> h in hits && h.langId == id && h.ch == ch
    ensures forall h :: multiset(g)[h] == if h.langId == id && h.ch == ch then multiset(hits)[h] else 0
  {
    assert hits != [] ==> hits == [hits[0]] + hits[1..];
    if hits == [] then []
    else (if hits[0].langId == id && hits[0].ch == ch then [hits[0]] else []) + CellHits(hits[1..], id, ch)
  }

  predicate StrictlyIncreasing(s: seq<int>)
  {
    forall i, j :: 0 <= i < j < |s| ==> s[i] < s[j]
  }

  function InsertId(x: int, s: seq<int>): (r: seq<int>)
    requires StrictlyIncreasing(s)
    ensures StrictlyIncreasing(r)
    ensures forall y :: y in r <==> y in s || y == x
    ensures r != [] && (s != [] ==> r[0] == if x < s[0] then x else s[0])
  {
    if s == [] then [x]
    else if x < s[0] then [x] + s
    else if x == s[0] then s
    else
      var rest := InsertId(x, s[1..]);
      assert s[0] < rest[0];
      [s[0]] + rest
  }

  /** The pivot's index: the distinct language ids of the hits, ascending. */
  function LangIds(hits: seq<Hit>): (ids: seq<int>)
    ensures StrictlyIncreasing(ids)
    ensures forall y :: y in ids <==> exists h :: h in hits && h.langId == y
  {
    if hits == [] then []
    else
      var rest := LangIds(hits[1..]);
      assert forall h :: h in hits <==> h == hits[0] || h in hits[1..];
      InsertId(hits[0].langId, rest)
  }

  /** A column named `ch` exists in the pivot: some hit carries that character. */
  predicate HasColumn(hits: seq<Hit>, ch: string)
  {
    exists h :: h in hits && h.ch == ch
  }

  /** `['語言ID', *chars_list]` */
  function Header(cs: seq<char>): seq<Json>
  {
    [JStr(IdColumn)] + seq(|cs|, j requires 0 <= j < |cs| => JStr([cs[j]]))
  }

  /** The cell at language `id` and character `ch` after `fillna('')`. */
  function Cell(hits: seq<Hit>, id: int, ch: string): Json
  {
    var g := CellHits(hits, id, ch);
    if g == [] then MissingCell else CellValue(g)
  }

  function Row(hits: seq<Hit>, cs: seq<char>, id: int): seq<Json>
  {
    [JInt(id)] + seq(|cs|, j requires 0 <= j < |cs| => Cell(hits, id, [cs[j]]))
  }

  /**
   * `[header] + pivot_df.values.tolist()`; selecting a column that the pivot
   * does not have raises a KeyError.
   */
  function PivotTable(hits: seq<Hit>, cs: seq<char>): (r: Result<seq<seq<Json>>>)
    ensures r.Success? <==> forall j :: 0 <= j < |cs| ==> HasColumn(hits, [cs[j]])
    ensures r.Success? ==> r.value == Table(hits, cs)
  {
    if exists j :: 0 <= j < |cs| && !HasColumn(hits, [cs[j]]) then Failure("KeyError")
    else Success(Table(hits, cs))
  }

  /** The header row followed by the rows of the pivot. */
  function Table(hits: seq<Hit>, cs: seq<char>): seq<seq<Json>>
  {
    var ids := LangIds(hits);
    [Header(cs)] + seq(|ids|, i requires 0 <= i < |ids| => Row(hits, cs, ids[i]))
  }

  /**
   * The shape of a successful pivot: the header row, then one row per
   * distinct language id in ascending order, every row as wide as the header,
   * each cell the CASE value of its group or '' where the group is empty.
   */
  lemma PivotShape(hits: seq<Hit>, cs: seq<char>)
    ensures var t := Table(hits, cs); var ids := LangIds(hits);
      && |t| == |ids| + 1
      && t[0] == Header(cs)
      && t[0][0] == JStr(IdColumn)
      && (forall j :: 0 <= j < |cs| ==> t[0][j + 1] == JStr([cs[j]]))
      && (forall i :: 0 <= i < |t| ==> |t[i]| == |cs| + 1)
      && (forall i :: 0 <= i < |ids| ==> t[i + 1][0] == JInt(ids[i]))
  {
    var t := Table(hits, cs);
    var ids := LangIds(hits);
    assert t[0] == Header(cs);
    forall i | 0 <= i < |ids| ensures |t[i + 1]| == |cs| + 1 && t[i + 1][0] == JInt(ids[i]) {
      assert t[i + 1] == Row(hits, cs, ids[i]);
    }
    forall i | 0 <= i < |t| ensures |t[i]| == |cs| + 1 {
      if i > 0 {
        assert t[i] == t[(i - 1) + 1];
      }
    }
  }

  /** The ids down the first column are exactly the languages with a hit, each once, ascending. */
  lemma PivotLanguages(hits: seq<Hit>, cs: seq<char>)
    ensures var t := Table(hits, cs);
      && (forall i, j :: 1 <= i < j < |t| ==> t[i][0].JInt? && t[j][0].JInt? && t[i][0].i < t[j][0].i)
      && (forall h :: h in hits ==> exists i :: 1 <= i < |t| && t[i][0] == JInt(h.langId))
  {
    var t := Table(hits, cs);
    var ids := LangIds(hits);
    forall h | h in hits ensures exists i :: 1 <= i < |t| && t[i][0] == JInt(h.langId) {
      assert h.langId in ids;
      var i :| 0 <= i < |ids| && ids[i] == h.langId;
      assert t[i + 1][0] == JInt(ids[i]);
    }
  }

  /** A cell is '' when its language has no reading for its character, and the CASE value of the readings otherwise. */
  lemma PivotCells(hits: seq<Hit>, cs: seq<char>, i: nat, j: nat)
    requires i < |LangIds(hits)| && j < |cs|
    ensures var t := Table(hits, cs); var g := CellHits(hits, LangIds(hits)[i], [cs[j]]);
      t[i + 1][j + 1] == (if g == [] then MissingCell else CellValue(g))
  {
    var ids := LangIds(hits);
    var t := Table(hits, cs);
    var row := Row(hits, cs, ids[i]);
    assert t[i + 1] == row;
    assert row[j + 1] == Cell(hits, ids[i], [cs[j]]);
  }

  /** A cell's group is empty exactly when its language has no reading for its character. */
  lemma CellHitsEmpty(hits: seq<Hit>, id: int, ch: string)
    ensures CellHits(hits, id, ch) == [] <==> forall h :: h in hits ==> !(h.langId == id && h.ch == ch)
  {
    var g := CellHits(hits, id, ch);
    if g != [] { assert g[0] in g; }
  }

  // ---------------------------------------------------------------------
  // _query_chars_sync

  /** The rows of the statement for the de-duplicated characters `cs`, before grouping. */
  function QueryHits(db: Db, cs: seq<char>): seq<Hit>
    requires |cs| >= 1
  {
    EnumerateWellFormed(cs);
    Join(db, BoundRows(PivotForm, cs))
  }

  /**
   * The characters are distinct, so hits that carry the same character come
   * from the same VALUES row: grouping by (字頭編號, 語言ID) and pivoting on
   * 字頭 put the same hits in a cell, and no (語言ID, 字頭) pair repeats.
   */
  lemma {:induction false} SameCharSamePosition(db: Db, cs: seq<char>)
    requires |cs| >= 1 && Distinct(cs)
    ensures forall h1, h2 :: h1 in QueryHits(db, cs) && h2 in QueryHits(db, cs) && h1.ch == h2.ch ==> h1.pos == h2.pos
  {
    JoinHitsBelong(db, cs);
    var hits := QueryHits(db, cs);
    assert hits == Join(db, Enumerate(cs));
    forall h1, h2 | h1 in hits && h2 in hits && h1.ch == h2.ch ensures h1.pos == h2.pos {
      assert [cs[h1.pos - 1]] == [cs[h2.pos - 1]];
      assert cs[h1.pos - 1] == [cs[h1.pos - 1]][0];
    }
  }

  /**
   * The cell of language `id` and the `j`-th character holds, duplicates
   * included, exactly the hits of that character's own VALUES row in that
   * language: as many as the store has entries for the character in a
   * language with that id, which is what `COUNT(*) = 1` counts.
   */
  lemma {:induction false} CellFromOwnRow(db: Db, cs: seq<char>, j: nat, id: int)
    requires |cs| >= 1 && Distinct(cs) && j < |cs|
    ensures var own := RowHits(db, [cs[j]], j + 1, Entries(db, [cs[j]]));
      && multiset(CellHits(QueryHits(db, cs), id, [cs[j]])) == multiset(CellHits(own, id, [cs[j]]))
      && |CellHits(QueryHits(db, cs), id, [cs[j]])| == |CellHits(own, id, [cs[j]])|
  {
    var g1 := CellHits(QueryHits(db, cs), id, [cs[j]]);
    var g2 := CellHits(RowHits(db, [cs[j]], j + 1, Entries(db, [cs[j]])), id, [cs[j]]);
    SameCellCounts(db, cs, j, id);
    assert |multiset(g1)| == |multiset(g2)|;
  }

  lemma SameCellCounts(db: Db, cs: seq<char>, j: nat, id: int)
    requires |cs| >= 1 && Distinct(cs) && j < |cs|
    ensures multiset(CellHits(QueryHits(db, cs), id, [cs[j]]))
      == multiset(CellHits(RowHits(db, [cs[j]], j + 1, Entries(db, [cs[j]])), id, [cs[j]]))
  {
    forall h: Hit
      ensures multiset(CellHits(QueryHits(db, cs), id, [cs[j]]))[h]
        == multiset(CellHits(RowHits(db, [cs[j]], j + 1, Entries(db, [cs[j]])), id, [cs[j]]))[h]
    {
      CellCountAt(db, cs, j, id, h);
    }
  }

  /** One hit at a time: `h` occurs in the cell as often as in its own row's part of it. */
  lemma {:induction false} CellCountAt(db: Db, cs: seq<char>, j: nat, id: int, h: Hit)
    requires |cs| >= 1 && Distinct(cs) && j < |cs|
    ensures multiset(CellHits(QueryHits(db, cs), id, [cs[j]]))[h]
      == multiset(CellHits(RowHits(db, [cs[j]], j + 1, Entries(db, [cs[j]])), id, [cs[j]]))[h]
  {
    if h.langId == id && h.ch == [cs[j]] {
      OwnRowCount(db, cs, j, h);
    }
  }

  /** A hit carrying the `j`-th character occurs in the join as often as in that character's own row. */
  lemma {:induction false} OwnRowCount(db: Db, cs: seq<char>, j: nat, h: Hit)
    requires |cs| >= 1 && Distinct(cs) && j < |cs| && h.ch == [cs[j]]
    ensures multiset(QueryHits(db, cs))[h] == multiset(RowHits(db, [cs[j]], j + 1, Entries(db, [cs[j]])))[h]
  {
    if h in QueryHits(db, cs) {
      OwnRowCountJoined(db, cs, j, h);
    } else {
      OwnRowCountMissing(db, cs, j, h);
    }
  }

  lemma OwnRowCountJoined(db: Db, cs: seq<char>, j: nat, h: Hit)
    requires |cs| >= 1 && Distinct(cs) && j < |cs| && h.ch == [cs[j]] && h in QueryHits(db, cs)
    ensures multiset(QueryHits(db, cs))[h] == multiset(RowHits(db, [cs[j]], j + 1, Entries(db, [cs[j]])))[h]
  {
    JoinedAtOwnPosition(db, cs, j, h);
    JoinOfQueryMultiplicity(db, cs, j, h);
  }

  /** The characters are distinct, so a joined hit carrying the `j`-th character sits at position `j + 1`. */
  lemma JoinedAtOwnPosition(db: Db, cs: seq<char>, j: nat, h: Hit)
    requires |cs| >= 1 && Distinct(cs) && j < |cs| && h.ch == [cs[j]] && h in QueryHits(db, cs)
    ensures WellFormedRows(Enumerate(cs))
    ensures QueryHits(db, cs) == Join(db, Enumerate(cs))
    ensures h.pos == j + 1
  {
    EnumerateWellFormed(cs);
    assert QueryHits(db, cs) == Join(db, Enumerate(cs));
    JoinHitBelongs(db, cs, h);
    assert [cs[h.pos - 1]] == [cs[j]];
    assert cs[h.pos - 1] == [cs[h.pos - 1]][0];
  }

  lemma OwnRowCountMissing(db: Db, cs: seq<char>, j: nat, h: Hit)
    requires |cs| >= 1 && j < |cs| && h !in QueryHits(db, cs)
    ensures h !in RowHits(db, [cs[j]], j + 1, Entries(db, [cs[j]]))
  {
    EnumeratedRowHits(db, cs, j);
    assert QueryHits(db, cs) == Join(db, Enumerate(cs));
  }

  /** `data_2d` as the list of lists it is. */
  function TableJson(t: seq<seq<Json>>): seq<Json>
  {
    seq(|t|, i requires 0 <= i < |t| => JArr(t[i]))
  }

  /**
   * `_query_chars_sync(chars)` of server/app.py: 400 when `chars` is
   * missing, 500 before start-up has read a version, `[]` for blank input,
   * 400 above `MAX_CHARS` distinct characters, 500 when the pivot lacks a
   * column, and otherwise `{version, data}`.
   */
  function QueryChars(chars: Option<string>, version: Option<string>, db: Db): Outcome
  {
    if chars.None? then Fail(400, "chars is required")
    else if version.None? then Fail(500, "Build version not initialized")
    else
      var s := Strip(chars.value);
      if s == [] then Ok(JArr([]))
      else
        var cs := Dedup(s);
        if |cs| > MaxChars then Fail(400, TooManyDetail(MaxChars))
        else
          match PivotTable(QueryHits(db, cs), cs)
          case Failure(_) => Fail(500, "internal server error")
          case Success(t) => Ok(Envelope(JStr(version.value), TableJson(t)))
  }

  /**
   * The guards of server/app.py, in order: a missing argument wins over
   * everything, a missing version over blank input, blank input gives `[]`,
   * and too many characters are refused whatever the store holds.
   */
  lemma ValidationOrder(chars: Option<string>, version: Option<string>, db: Db)
    ensures chars.None? ==> QueryChars(chars, version, db) == Fail(400, "chars is required")
    ensures chars.Some? && version.None? ==>
      QueryChars(chars, version, db) == Fail(500, "Build version not initialized")
    ensures chars.Some? && version.Some? && Strip(chars.value) == [] ==>
      QueryChars(chars, version, db) == Ok(JArr([]))
    ensures chars.Some? && version.Some? && |Dedup(Strip(chars.value))| > MaxChars ==>
      QueryChars(chars, version, db) == Fail(400, "too many chars; max=128")
  {
    assert Decimal.NatToText(128) == "128" by {
      assert Decimal.NatToText(12) == "12" by { assert Decimal.NatToText(1) == "1"; }
    }
  }

  /** The pivot has a column for a queried character exactly when the store matches it. */
  lemma {:induction false} ColumnsIffMatched(db: Db, cs: seq<char>)
    requires |cs| >= 1
    ensures forall j :: 0 <= j < |cs| ==> (HasColumn(QueryHits(db, cs), [cs[j]]) <==> Matched(db, [cs[j]]))
  {
    JoinOfQuery(db, cs);
    var hits := QueryHits(db, cs);
    assert hits == Join(db, Enumerate(cs));
  }

  /** The pivot has every queried column exactly when every queried character is matched. */
  lemma {:induction false} AllColumnsIffAllMatched(db: Db, cs: seq<char>)
    requires |cs| >= 1
    ensures (forall j :: 0 <= j < |cs| ==> HasColumn(QueryHits(db, cs), [cs[j]])) <==> AllMatched(db, cs)
  {
    ColumnsIffMatched(db, cs);
  }

  /**
   * Past the guards, the request succeeds exactly when every queried
   * character has a reading in some language with an id, and then answers
   * the envelope of the current version around the pivot of the join.
   */
  lemma {:induction false} QuerySucceedsIff(s: string, version: string, db: Db)
    requires Strip(s) != [] && |Dedup(Strip(s))| <= MaxChars
    ensures var cs := Dedup(Strip(s)); var r := QueryChars(Some(s), Some(version), db);
      && (r.Ok? <==> AllMatched(db, cs))
      && (r.Ok? ==> r.body == Envelope(JStr(version), TableJson(Table(QueryHits(db, cs), cs))))
      && (r.Fail? ==> r == Fail(500, "internal server error"))
  {
    var cs := Dedup(Strip(s));
    AllColumnsIffAllMatched(db, cs);
  }

  // ---------------------------------------------------------------------
  // _list_langs_sync

  /** `簡稱 <> '漢字'`: SQL's comparison is NULL, so not true, for a NULL code too. */
  predicate Listed(r: InfoRow)
  {
    r.code != SNull && r.code != SText("漢字")
  }

  /** The 14 columns server/app.py lists per language, 地點 included. */
  function LangRow(r: InfoRow): Json
  {
    JArr([JInt(r.rowid), SqlJson(r.name), SqlJson(r.code),
          SqlJson(r.atlasOrder), SqlJson(r.atlasColor), SqlJson(r.atlasRegion),
          SqlJson(r.yindianOrder), SqlJson(r.yindianColor), SqlJson(r.yindianRegion),
          SqlJson(r.chenOrder), SqlJson(r.chenColor), SqlJson(r.chenRegion),
          SqlJson(r.place), SqlJson(r.coords)])
  }

  /**
   * The rows of the `r` CTE: every language except the 漢字 pseudo-language
   * (and rows with no code), 14 fields each, and nothing else.
   */
  function LangRows(info: seq<InfoRow>): (rows: seq<Json>)
    ensures |rows| <= |info|
    ensures forall k :: 0 <= k < |rows| ==> rows[k].JArr? && |rows[k].items| == 14 && rows[k].items[0].JInt?
    ensures forall k :: 0 <= k < |rows| ==> rows[k].items[2] != JStr("漢字") && rows[k].items[2] != JNull
    ensures forall x :: x in rows <==> exists r :: r in info && Listed(r) && x == LangRow(r)
  {
    if info == [] then []
    else
      var rest := LangRows(info[1..]);
      assert forall r :: r in info <==> r == info[0] || r in info[1..];
      if Listed(info[0]) then [LangRow(info[0])] + rest else rest
  }

  /** The 語言ID field of a listing row. */
  function RowId(x: Json): int
  {
    if x.JArr? && |x.items| > 0 && x.items[0].JInt? then x.items[0].i else 0
  }

  predicate IdsAscend(rows: seq<Json>)
  {
    forall i, j :: 0 <= i < j < |rows| ==> RowId(rows[i]) < RowId(rows[j])
  }

  /** Every row listed after the first stored language has a larger id than it. */
  lemma {:induction false} LaterRowsAbove(info: seq<InfoRow>)
    requires info != []
    requires forall i, j :: 0 <= i < j < |info| ==> info[i].rowid < info[j].rowid
    ensures forall x :: x in LangRows(info[1..]) ==> info[0].rowid < RowId(x)
  {
    var tail := info[1..];
    forall x | x in LangRows(tail) ensures info[0].rowid < RowId(x) {
      var r :| r in tail && Listed(r) && x == LangRow(r);
      var m :| 0 <= m < |tail| && tail[m] == r;
      assert info[m + 1] == r;
    }
  }

  lemma ConsAscend(x: Json, rest: seq<Json>)
    requires IdsAscend(rest)
    requires forall y :: y in rest ==> RowId(x) < RowId(y)
    ensures IdsAscend([x] + rest)
  {
    var rows := [x] + rest;
    forall i, j | 0 <= i < j < |rows| ensures RowId(rows[i]) < RowId(rows[j]) {
      assert rows[j] == rest[j - 1];
      if i == 0 {
        assert rows[j] in rest;
      } else {
        assert rows[i] == rest[i - 1];
      }
    }
  }

  /** In storage (ROWID) order, the listing comes out in strictly ascending language id. */
  lemma {:induction false} LangRowsAscending(info: seq<InfoRow>)
    requires forall i, j :: 0 <= i < j < |info| ==> info[i].rowid < info[j].rowid
    ensures IdsAscend(LangRows(info))
  {
    if info != [] {
      var tail := info[1..];
      LangRowsAscending(tail);
      if Listed(info[0]) {
        LaterRowsAbove(info);
        assert RowId(LangRow(info[0])) == info[0].rowid;
        ConsAscend(LangRow(info[0]), LangRows(tail));
      }
    }
  }

  /** SQLite's `CAST(b.version AS TEXT)`. */
  function VersionText(v: SqlValue): Json
  {
    match v
    case SNull => JNull
    case SInt(i) => JStr(Decimal.IntToText(i))
    case SText(t) => JStr(t)
  }

  /** `_list_langs_sync` of server/app.py: `[]` without a `build_version` row, else `{version, data}`. */
  function ListLangs(db: Db): (r: Json)
    ensures db.versions == [] ==> r == JArr([])
    ensures db.versions != [] ==> r.JObj? && Keys(r.members) == ["version", "data"]
    ensures db.versions != [] && db.versions[0].SInt? ==>
      Get(r.members, "version").Some? && Get(r.members, "version").value.JStr? &&
      var t := Get(r.members, "version").value.s;
      t != [] && (t[0] == '-' ==> Decimal.AllDigits(t[1..])) && (t[0] != '-' ==> Decimal.AllDigits(t)) &&
      Decimal.TextToInt(t) == db.versions[0].i
    ensures db.versions != [] && db.versions[0].SText? ==>
      Get(r.members, "version") == Some(JStr(db.versions[0].s))
    ensures db.versions != [] && db.versions[0].SNull? ==> Get(r.members, "version") == Some(JNull)
    ensures db.versions != [] ==> (Get(r.members, "data").Some? && Get(r.members, "data").value.JArr? &&
      var rows := Get(r.members, "data").value.items;
      && |rows| <= |db.info|
      && (forall k :: 0 <= k < |rows| ==> rows[k].JArr? && |rows[k].items| == 14)
      && (forall k :: 0 <= k < |rows| ==> rows[k].items[2] != JStr("漢字") && rows[k].items[2] != JNull)
      && (forall x :: x in rows <==> exists i :: 0 <= i < |db.info| && Listed(db.info[i]) && x == LangRow(db.info[i])))
    ensures db.versions != [] ==> Get(r.members, "data") == Some(JArr(LangRows(db.info)))
  {
    if db.versions == [] then JArr([])
    else
      var v := VersionText(db.versions[0]);
      var rows := LangRows(db.info);
      EnvelopeFields(v, rows);
      if db.versions[0].SInt? then Decimal.IntTextRoundTrip(db.versions[0].i); Envelope(v, rows)
      else Envelope(v, rows)
  }
}
