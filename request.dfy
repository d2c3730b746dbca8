/**
 * Request shaping shared by both variants of the service: trimming and
 * de-duplicating the `chars` argument, the VALUES list of the statement, the
 * flat parameter list, and how the engine binds that list to the VALUES rows.
 * `_dedup`, `_make_params` and the VALUES part of `_build_query` are letter for
 * letter the same in main.py and server/app.py.
 */
module Request {
  import opened Wrappers
  import Decimal

  // ---------------------------------------------------------------------
  // str.strip()

  /** The characters Python's `str.isspace()` accepts, which `str.strip()` removes. */
  const Whitespace: set<char> := {' ', '\t', '\n', '\r', '\U{000B}', '\U{000C}',
    '\U{001C}', '\U{001D}', '\U{001E}', '\U{001F}',
    '\U{0085}', '\U{00A0}', '\U{1680}',
    '\U{2000}', '\U{2001}', '\U{2002}', '\U{2003}', '\U{2004}', '\U{2005}',
    '\U{2006}', '\U{2007}', '\U{2008}', '\U{2009}', '\U{200A}',
    '\U{2028}', '\U{2029}', '\U{202F}', '\U{205F}', '\U{3000}'}

  predicate IsSpace(c: char)
  {
    c in Whitespace
  }

  /** The first index at or after `i` that is not whitespace, or `|s|`. */
  function StripStart(s: string, i: nat): (b: nat)
    requires i <= |s|
    ensures i <= b <= |s|
    ensures forall k :: i <= k < b ==> IsSpace(s[k])
    ensures b == |s| || !IsSpace(s[b])
    decreases |s| - i
  {
    if i < |s| && IsSpace(s[i]) then StripStart(s, i + 1) else i
  }

  /** One past the last index below `hi` and at or after `lo` that is not whitespace, or `lo`. */
  function StripEnd(s: string, lo: nat, hi: nat): (e: nat)
    requires lo <= hi <= |s|
    ensures lo <= e <= hi
    ensures forall k :: e <= k < hi ==> IsSpace(s[k])
    ensures e == lo || !IsSpace(s[e - 1])
  {
    if lo < hi && IsSpace(s[hi - 1]) then StripEnd(s, lo, hi - 1) else hi
  }

  /** Where the stripped text starts. */
  function StripOffset(s: string): nat
  {
    StripStart(s, 0)
  }

  /**
   * `chars.strip()`: the longest slice of `s` neither end of which is
   * whitespace; everything cut away is whitespace, and nothing is left
   * exactly when `s` is all whitespace.
   */
  function Strip(s: string): (r: string)
    ensures StripOffset(s) + |r| <= |s| && r == s[StripOffset(s)..StripOffset(s) + |r|]
    ensures forall k :: 0 <= k < |s| && (k < StripOffset(s) || StripOffset(s) + |r| <= k) ==> IsSpace(s[k])
    ensures r == [] || (!IsSpace(r[0]) && !IsSpace(r[|r| - 1]))
    ensures r == [] <==> forall k :: 0 <= k < |s| ==> IsSpace(s[k])
  {
    var b := StripStart(s, 0);
    var e := StripEnd(s, b, |s|);
    s[b..e]
  }

  // ---------------------------------------------------------------------
  // _dedup: list(dict.fromkeys(chars))

  predicate Distinct<T(==)>(s: seq<T>)
  {
    forall i, j :: 0 <= i < j < |s| ==> s[i] != s[j]
  }

  /**
   * `list(dict.fromkeys(chars))`: characters are inserted left to right and a
   * key already present is not inserted again.
   */
  function Dedup(s: seq<char>): (r: seq<char>)
    ensures Distinct(r)
    ensures forall c :: c in r <==> c in s
    ensures |r| <= |s|
  {
    if s == [] then []
    else
      var r := Dedup(s[..|s| - 1]);
      if s[|s| - 1] in r then r else r + [s[|s| - 1]]
  }

  /** Independent reference: keep exactly the positions where a character occurs for the first time. */
  function FirstOccurrences(s: seq<char>): seq<char>
  {
    if s == [] then []
    else
      var p := s[..|s| - 1];
      FirstOccurrences(p) + (if s[|s| - 1] in p then [] else [s[|s| - 1]])
  }

  lemma {:induction false} DedupIsFirstOccurrences(s: seq<char>)
    ensures Dedup(s) == FirstOccurrences(s)
  {
    if s != [] {
      DedupIsFirstOccurrences(s[..|s| - 1]);
    }
  }

  /** Index of the first occurrence of `c` in `s`. */
  function FirstIndex(s: seq<char>, c: char): (i: nat)
    requires c in s
    ensures i < |s| && s[i] == c && c !in s[..i]
  {
    if s[0] == c then 0 else assert s == [s[0]] + s[1..]; 1 + FirstIndex(s[1..], c)
  }

  lemma FirstIndexUnique(s: seq<char>, c: char, i: nat)
    requires i < |s| && s[i] == c && c !in s[..i]
    ensures FirstIndex(s, c) == i
  {
    var f := FirstIndex(s, c);
    if f < i {
      assert false;
    } else if i < f {
      assert false;
    }
  }

  /** The output follows the order in which characters first appear in the input. */
  lemma {:induction false} DedupKeepsFirstOccurrenceOrder(s: seq<char>)
    ensures forall i, j :: 0 <= i < j < |Dedup(s)| ==> FirstIndex(s, Dedup(s)[i]) < FirstIndex(s, Dedup(s)[j])
  {
    if s != [] {
      var p := s[..|s| - 1];
      var rp := Dedup(p);
      DedupKeepsFirstOccurrenceOrder(p);
      forall c | c in rp
        ensures FirstIndex(s, c) == FirstIndex(p, c) && FirstIndex(p, c) < |p|
      {
        var f := FirstIndex(p, c);
        assert s[..f] == p[..f];
        FirstIndexUnique(s, c, f);
      }
      var last := s[|s| - 1];
      if last !in rp {
        assert s[..|s| - 1] == p;
        FirstIndexUnique(s, last, |s| - 1);
        var r := Dedup(s);
        assert r == rp + [last];
        forall i, j | 0 <= i < j < |r|
          ensures FirstIndex(s, r[i]) < FirstIndex(s, r[j])
        {
          assert r[i] == rp[i];
          if j < |rp| { assert r[j] == rp[j]; }
        }
      }
    }
  }

  /** De-duplicating a sequence without repeats changes nothing ... */
  lemma {:induction false} DedupOfDistinct(t: seq<char>)
    requires Distinct(t)
    ensures Dedup(t) == t
  {
    if t != [] {
      var p := t[..|t| - 1];
      DedupOfDistinct(p);
      assert t == p + [t[|t| - 1]];
      assert t[|t| - 1] !in p by {
        forall k | 0 <= k < |p| ensures p[k] != t[|t| - 1] { assert p[k] == t[k]; }
      }
    }
  }

  /** ... so `_dedup` is idempotent. */
  lemma DedupIdempotent(s: seq<char>)
    ensures Dedup(Dedup(s)) == Dedup(s)
  {
    DedupOfDistinct(Dedup(s));
  }

  /** The docstring's example. */
  lemma DedupExample()
    ensures Dedup("漢漢字字") == "漢字"
  {
    assert "漢漢字字"[..3] == "漢漢字";
    assert "漢漢字"[..2] == "漢漢";
    assert "漢漢"[..1] == "漢";
  }

  /** `f"too many chars; max={MAX_CHARS}"` */
  function TooManyDetail(max: nat): string
  {
    "too many chars; max=" + Decimal.NatToText(max)
  }

  // ---------------------------------------------------------------------
  // _build_query: only the VALUES list carries placeholders

  /** Which of the two statement templates the VALUES list is spliced into. */
  datatype Form = GroupedForm | PivotForm

  /**
   * A statement: its template (text without any `?`) and the VALUES list
   * spliced into it.
   */
  datatype Statement = Statement(form: Form, values: string)

  const ValuesRow := "(?, ?)"

  /** Python's `sep.join(parts)`. */
  function JoinWith(sep: string, parts: seq<string>): string
  {
    if |parts| == 0 then ""
    else if |parts| == 1 then parts[0]
    else parts[0] + sep + JoinWith(sep, parts[1..])
  }

  /** `", ".join(["(?, ?)"] * n)` */
  function ValuesList(n: nat): string
  {
    JoinWith(", ", seq(n, _ => ValuesRow))
  }

  function Count(c: char, s: string): nat
  {
    if s == [] then 0 else (if s[0] == c then 1 else 0) + Count(c, s[1..])
  }

  lemma {:induction false} CountAppend(c: char, a: string, b: string)
    ensures Count(c, a + b) == Count(c, a) + Count(c, b)
  {
    if a == [] {
      assert a + b == b;
    } else {
      assert (a + b)[0] == a[0];
      assert (a + b)[1..] == a[1..] + b;
      CountAppend(c, a[1..], b);
    }
  }

  lemma ValuesRowCounts()
    ensures Count('?', ValuesRow) == 2 && Count('(', ValuesRow) == 1
  {
    assert ValuesRow[1..][1..][1..][1..][1..][1..] == [];
  }

  /** A longer VALUES list is one more row in front of a shorter one. */
  lemma ValuesListStep(n: nat)
    requires n > 1
    ensures ValuesList(n) == ValuesRow + (", " + ValuesList(n - 1))
  {
    assert seq(n, _ => ValuesRow)[1..] == seq(n - 1, _ => ValuesRow);
  }

  /** For n >= 1 the VALUES list is n groups `(?, ?)`: n opening parentheses and 2n placeholders. */
  lemma {:induction false} ValuesListShape(n: nat)
    requires n >= 1
    ensures Count('?', ValuesList(n)) == 2 * n
    ensures Count('(', ValuesList(n)) == n
    ensures n > 1 ==> ValuesList(n) == ValuesRow + ", " + ValuesList(n - 1)
  {
    ValuesRowCounts();
    if n > 1 {
      var rest := ValuesList(n - 1);
      ValuesListStep(n);
      ValuesListShape(n - 1);
      CountAppend('?', ValuesRow, ", " + rest);
      CountAppend('?', ", ", rest);
      CountAppend('(', ValuesRow, ", " + rest);
      CountAppend('(', ", ", rest);
    }
  }

  function Placeholders(st: Statement): nat
  {
    Count('?', st.values)
  }

  /** `_build_query(n)`: a ValueError for n <= 0, otherwise a statement with 2n placeholders. */
  function BuildQuery(form: Form, n: int): (r: Result<Statement>)
    ensures r.Failure? <==> n <= 0
    ensures r.Failure? ==> r.error == "n must be > 0"
    ensures r.Success? ==> r.value.form == form && Placeholders(r.value) == 2 * n
  {
    if n <= 0 then Failure("n must be > 0")
    else ValuesListShape(n); Success(Statement(form, ValuesList(n)))
  }

  // ---------------------------------------------------------------------
  // _make_params and the engine's binding of the parameters

  datatype SqlParam = PText(text: string) | PInt(n: int)

  /** The flat parameter list for `chars`: each character followed by its 1-based position. */
  function FlatParams(cs: seq<char>): seq<SqlParam>
  {
    if cs == [] then [] else FlatParams(cs[..|cs| - 1]) + [PText([cs[|cs| - 1]]), PInt(|cs|)]
  }

  lemma {:induction false} FlatParamsAt(cs: seq<char>)
    ensures |FlatParams(cs)| == 2 * |cs|
    ensures forall i :: 0 <= i < |cs| ==> FlatParams(cs)[2 * i] == PText([cs[i]]) && FlatParams(cs)[2 * i + 1] == PInt(i + 1)
  {
    if cs != [] {
      var p := cs[..|cs| - 1];
      FlatParamsAt(p);
      forall i | 0 <= i < |p| ensures p[i] == cs[i] { }
    }
  }

  /** `_make_params(chars_list)`: the loop that appends every character and then its position. */
  method MakeParams(chars: seq<char>) returns (params: seq<SqlParam>)
    ensures params == FlatParams(chars)
    ensures |params| == 2 * |chars|
    ensures forall i :: 0 <= i < |chars| ==> params[2 * i] == PText([chars[i]]) && params[2 * i + 1] == PInt(i + 1)
  {
    params := [];
    for idx := 0 to |chars|
      invariant params == FlatParams(chars[..idx])
    {
      assert chars[..idx + 1][..idx] == chars[..idx];
      params := params + [PText([chars[idx]])];
      params := params + [PInt(idx + 1)];
    }
    assert chars[..|chars|] == chars;
    FlatParamsAt(chars);
  }

  /** A row of the VALUES table `q(字頭, 字頭編號)`. */
  type QRow = (SqlParam, SqlParam)

  /**
   * How sqlite3 binds a parameter list: a ProgrammingError when the number
   * of values differs from the number of placeholders, otherwise the values
   * are taken left to right, two per `(?, ?)` row.
   */
  function Bind(st: Statement, params: seq<SqlParam>): (r: Option<seq<QRow>>)
    ensures r.Some? <==> |params| == Placeholders(st)
  {
    if |params| != Placeholders(st) then None
    else Some(seq(|params| / 2, k requires 0 <= k < |params| / 2 => (params[2 * k], params[2 * k + 1])))
  }

  /** The VALUES table the service means to build: every character with its 1-based position. */
  function Enumerate(cs: seq<char>): (rows: seq<QRow>)
    ensures |rows| == |cs|
  {
    seq(|cs|, i requires 0 <= i < |cs| => (PText([cs[i]]), PInt(i + 1)))
  }

  /**
   * The placeholders of `_build_query(len(chars))` and the values of
   * `_make_params(chars)` line up: binding them gives one row per character,
   * in order, with its 1-based position.
   */
  lemma ParamsLineUp(form: Form, cs: seq<char>)
    requires |cs| >= 1
    ensures BuildQuery(form, |cs|).Success?
    ensures Bind(BuildQuery(form, |cs|).value, FlatParams(cs)) == Some(Enumerate(cs))
  {
    var st := BuildQuery(form, |cs|).value;
    BindAligned(st, cs);
  }

  /** The VALUES table the engine builds from `_build_query(len(chars))` bound to `_make_params(chars)`. */
  function BoundRows(form: Form, cs: seq<char>): (rows: seq<QRow>)
    requires |cs| >= 1
    ensures rows == Enumerate(cs)
  {
    ParamsLineUp(form, cs);
    Bind(BuildQuery(form, |cs|).value, FlatParams(cs)).value
  }

  /** Binding the flat parameters to a statement with two placeholders per character. */
  lemma BindAligned(st: Statement, cs: seq<char>)
    requires Placeholders(st) == 2 * |cs|
    ensures Bind(st, FlatParams(cs)) == Some(Enumerate(cs))
  {
    var params := FlatParams(cs);
    FlatParamsAt(cs);
    var rows := Bind(st, params).value;
    assert |rows| == |cs|;
    forall k | 0 <= k < |cs| ensures rows[k] == Enumerate(cs)[k] {
      assert rows[k] == (params[2 * k], params[2 * k + 1]);
    }
    assert rows == Enumerate(cs);
  }

  /** Any other number of values is refused by the engine. */
  lemma BindRefusesMismatch(form: Form, n: int, params: seq<SqlParam>)
    requires n >= 1 && |params| != 2 * n
    ensures Bind(BuildQuery(form, n).value, params).None?
  {
  }
}
