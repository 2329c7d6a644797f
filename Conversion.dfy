/** The numeral converter: digits of a number in base `n - 1`, looked up in
    the symbol table and rendered as the characters they name. */
module Conversion {
  import opened Wrappers
  import opened Hex
  import opened Numerals
  import opened SymbolTable

  /** A character of a Python string: a code point up to U+10FFFF
      (surrogates included, as Python allows them). */
  type CodePoint = x: int | 0 <= x <= 0x10FFFF

  const MaxCodePoint: int := 0x10FFFF

  /** The exceptions conversion can raise: a digit with no table row (the
      TypeError of indexing the `None` that `fetchone()` returns), and the
      two ways the `unicode_escape` codec rejects a `\U` escape. */
  datatype Failure = MissingRow(index: int) | TruncatedEscape | IllegalCharacter

  /** A stored code point that is an eight-digit escape of a valid
      character. */
  ghost predicate RenderableCodePoint(cp: string) {
    |cp| == 8 && IsHex(cp) && HexValue(cp) <= MaxCodePoint
  }

  /** Every stored code point is renderable. */
  ghost predicate RenderableRows(rows: seq<(int, string)>) {
    forall i :: 0 <= i < |rows| ==> RenderableCodePoint(rows[i].1)
  }

  class Converter {
    const base: int
    const db: Db

    constructor (db: Db)
      ensures this.db == db && base == db.n - 1
      ensures base == -1 <==> db.n == 0
    {
      this.base := db.n - 1;
      this.db := db;
    }

    /** The table is well formed and the base is one less than its size. */
    ghost predicate Valid()
      reads db
    {
      db.Valid() && base == db.n - 1
    }

    /** `to_base_unicode`: the digits of `number`, most significant first.
        The loop ends for every non-negative number exactly when the base is
        at least 2 or the number is 0. */
    method ToBaseUnicode(number: int) returns (a: seq<int>)
      requires number >= 0
      requires number == 0 || base >= 2
      ensures a == Digits(number, base)
      ensures number == 0 <==> a == []
      ensures forall i :: 0 <= i < |a| ==> 0 <= a[i] < base
      ensures a != [] ==> a[0] != 0
      ensures FromDigits(a, base) == number
    {
      a := [];
      var d := number;
      while d != 0
        invariant 0 <= d
        invariant number == 0 ==> d == 0
        invariant Digits(number, base) == Digits(d, base) + a
        decreases d
      {
        DivModBasics(d, base);
        var r := d % base;
        assert Digits(d, base) == Digits(d / base, base) + [r];
        a := [r] + a;
        d := d / base;
      }
      FromDigitsOfDigits(number, base);
    }

    /** `to_codepoints`: each digit looked up in the table, in order; the
        first digit without a row raises. */
    function ToCodepoints(l: seq<int>): (r: Result<seq<string>, Failure>)
      reads db
      ensures r.Ok? <==> forall i :: 0 <= i < |l| ==> db.Get(l[i]).Some?
      ensures r.Ok? ==> |r.value| == |l| && forall i :: 0 <= i < |l| ==> db.Get(l[i]) == Some(r.value[i])
      ensures r.Err? ==> r.error.MissingRow? && r.error.index in l && db.Get(r.error.index).None?
      ensures db.Valid() && (forall i :: 0 <= i < |l| ==> 0 <= l[i] < db.n) ==>
                r.Ok? && forall i :: 0 <= i < |l| ==> r.value[i] == db.rows[l[i]].1
    {
      if l == [] then Ok([])
      else match db.Get(l[0])
        case None => Err(MissingRow(l[0]))
        case Some(cp) =>
          match ToCodepoints(l[1..])
          case Err(e) => Err(e)
          case Ok(rest) => Ok([cp] + rest)
    }

    /** `get_utf8`: the character named by the escape `\U` followed by the
        eight hex digits `cp`. */
    function GetUtf8(cp: string): (r: Result<CodePoint, Failure>)
      requires |cp| <= 8
      ensures r.Ok? <==> |cp| == 8 && IsHex(cp) && HexValue(cp) <= MaxCodePoint
      ensures r.Ok? ==> r.value == HexValue(cp)
      ensures r.Err? ==> (r.error == IllegalCharacter <==> |cp| == 8 && IsHex(cp))
    {
      if |cp| < 8 || !IsHex(cp) then Err(TruncatedEscape)
      else if HexValue(cp) > MaxCodePoint then Err(IllegalCharacter)
      else Ok(HexValue(cp))
    }

    /** `to_utf8`: the characters of the code points, joined in order. */
    function ToUtf8(l: seq<string>): (r: Result<seq<CodePoint>, Failure>)
      requires forall i :: 0 <= i < |l| ==> |l[i]| <= 8
      ensures r.Ok? <==> forall i :: 0 <= i < |l| ==> GetUtf8(l[i]).Ok?
      ensures r.Ok? ==> |r.value| == |l| && forall i :: 0 <= i < |l| ==> GetUtf8(l[i]) == Ok(r.value[i])
      ensures r.Err? ==> exists i :: 0 <= i < |l| && GetUtf8(l[i]) == Err(r.error)
    {
      if l == [] then Ok([])
      else match GetUtf8(l[0])
        case Err(e) => Err(e)
        case Ok(c) =>
          match ToUtf8(l[1..])
          case Err(e) =>
            ghost var i :| 0 <= i < |l[1..]| && GetUtf8(l[1..][i]) == Err(e);
            assert GetUtf8(l[i + 1]) == Err(e);
            Err(e)
          case Ok(rest) => Ok([c] + rest)
    }
  }

  /** Every digit of a conversion has a row: digits are below `base = n - 1`,
      so the lookup never misses, row `base` (the last symbol accepted) is
      never used, and digit 0 looks up the sentinel. */
  lemma LookupNeverMisses(c: Converter, number: int)
    requires c.Valid()
    requires number >= 0 && (number == 0 || c.base >= 2)
    ensures var ds := Digits(number, c.base);
            var r := c.ToCodepoints(ds);
            r.Ok? && |r.value| == |ds| &&
            (forall i :: 0 <= i < |ds| ==> ds[i] != c.base && r.value[i] == c.db.rows[ds[i]].1) &&
            (c.db.Seeded() ==> forall i :: 0 <= i < |ds| && ds[i] == 0 ==> r.value[i] == Sentinel)
  {
  }

  /** A stored (padded) code point of an accepted record renders as the
      character with the record's own value. */
  lemma RenderPadded(c: Converter, cp: string)
    requires IsHex(cp) && |cp| <= 8 && HexValue(cp) < MaxCodePointExclusive
    ensures c.GetUtf8(Pad8(cp)) == Ok(HexValue(cp))
  {
    PadPreservesHexValue(cp);
  }

  /** A table built from a catalog whose code points have at most eight
      digits can render every row. */
  lemma {:induction false} GeneratedTableRenderable(records: seq<CharRecord>)
    requires forall i :: 0 <= i < |records| && records[i].cp.Some? ==> |records[i].cp.value| <= 8
    ensures RenderableRows(Table(Filter(records).kept))
  {
    var kept := Filter(records).kept;
    var t := Table(kept);
    KeptLengthBound(records);
    forall i | 0 <= i < |t|
      ensures RenderableCodePoint(t[i].1)
    {
      if i == 0 {
        SentinelPadded();
        ZerosValue(Sentinel);
      } else {
        PadPreservesHexValue(kept[i - 1]);
      }
    }
  }

  /** Kept code points come from the catalog, so they are no longer than
      the longest catalog `cp`. */
  lemma {:induction false} KeptLengthBound(records: seq<CharRecord>)
    requires forall i :: 0 <= i < |records| && records[i].cp.Some? ==> |records[i].cp.value| <= 8
    ensures forall k :: 0 <= k < |Filter(records).kept| ==> |Filter(records).kept[k]| <= 8
  {
    if records != [] {
      KeptLengthBound(records[..|records| - 1]);
    }
  }

  /** End to end: on a renderable table, a number converts to one character
      per digit, character i being the one named by row `digit i`; zero
      renders as the empty string. */
  lemma ConvertRenders(c: Converter, number: int)
    requires c.Valid() && RenderableRows(c.db.rows)
    requires number >= 0 && (number == 0 || c.base >= 2)
    ensures var ds := Digits(number, c.base);
            var cps := c.ToCodepoints(ds);
            cps.Ok? &&
            (forall i :: 0 <= i < |cps.value| ==> |cps.value[i]| <= 8) &&
            var text := c.ToUtf8(cps.value);
            text.Ok? && |text.value| == |ds| &&
            (forall i :: 0 <= i < |ds| ==> text.value[i] == HexValue(c.db.rows[ds[i]].1)) &&
            (number == 0 ==> text.value == [])
  {
  }

  /** A two-symbol alphabet (U+0041, U+0042 after the sentinel, base 2): 3 is
      written [1, 1] and 2 is written [1, 0], whose 0 digit looks up the
      sentinel row rather than failing (`SentinelRenders` gives its
      character). */
  lemma TwoSymbolExample()
    ensures Digits(3, 2) == [1, 1] && Digits(2, 2) == [1, 0]
    ensures Lookup(Table(["0041", "0042"]), 1) == Some("00000041")
    ensures Lookup(Table(["0041", "0042"]), 0) == Some(Sentinel)
  {
    assert Zeros(4) + "0041" == "00000041";
    assert Table(["0041", "0042"])[1] == (1, "00000041");
  }

  /** Digit 0 renders the sentinel, which is the character U+0000. */
  lemma SentinelRenders(c: Converter)
    ensures c.GetUtf8(Sentinel) == Ok(0)
  {
    ZerosValue(Sentinel);
  }

  /** Building the table and the converter on it, as `main` does on a fresh
      store: after a build that does not raise, the base is the number of
      accepted catalog records. */
  method BuildConverter(records: seq<CharRecord>) returns (ok: bool, c: Converter)
    ensures ok <==> !Filter(records).crashed
    ensures c.Valid() && c.db.Seeded() && c.db.rows == Table(Filter(records).kept)
    ensures ok ==> c.base == KeptCount(records)
  {
    var db := new Db();
    ok := Generate(records, db);
    if ok {
      FilterKeepsAcceptedInOrder(records);
    }
    c := new Converter(db);
  }
}
