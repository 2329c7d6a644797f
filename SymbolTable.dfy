/** The alphabet builder: the symbol table (`Db`), the catalog records it is
    built from, and `generate`, which filters the catalog into the table. */
module SymbolTable {
  import opened Wrappers
  import opened Hex

  /** Code points at or above this value are not admitted (0xE0000). */
  const MaxCodePointExclusive: nat := 917504

  lemma SentinelPadded()
    ensures Pad8(SentinelCodePoint) == Sentinel
  {
  }

  /** The code point inserted by `create` before any catalog record. */
  const SentinelCodePoint: string := "0000"

  /** The sentinel as the table stores it, padded to eight digits. */
  const Sentinel: string := "00000000"

  /** One `char` element of the character database: its `cp`, `na` and
      `kTotalStrokes` attributes, each possibly absent. */
  datatype CharRecord = CharRecord(cp: Option<string>, na: Option<string>, kTotalStrokes: Option<string>)

  /** What one turn of the filter loop does with a record: skip it, insert
      its code point, or raise (a present code point that is not hex). */
  datatype Verdict = Skip | Keep(cp: string) | Invalid

  /** First match of `SELECT codepoint FROM symbols WHERE n = x`, in
      insertion order; None when `fetchone()` finds no row. */
  function Lookup(rows: seq<(int, string)>, x: int): (r: Option<string>)
    ensures r.None? ==> forall i :: 0 <= i < |rows| ==> rows[i].0 != x
    ensures r.Some? ==> exists i :: 0 <= i < |rows| && rows[i] == (x, r.value)
                                 && forall j :: 0 <= j < i ==> rows[j].0 != x
  {
    if rows == [] then None
    else if rows[0].0 == x then Some(rows[0].1)
    else
      var r := Lookup(rows[1..], x);
      if r.Some? then
        ghost var i :| 0 <= i < |rows[1..]| && rows[1..][i] == (x, r.value)
                       && forall j :: 0 <= j < i ==> rows[1..][j].0 != x;
        assert rows[i + 1] == (x, r.value);
        r
      else r
  }

  /** The `symbols` table, held in memory: the rows in insertion order and
      the counter `n` that numbers the next row. */
  class Db {
    var rows: seq<(int, string)>
    var n: int

    /** Row i is numbered i and `n` is the number of rows. */
    ghost predicate Valid()
      reads this
    {
      n == |rows| && forall i :: 0 <= i < |rows| ==> rows[i].0 == i
    }

    /** Row 0 holds the sentinel. */
    ghost predicate Seeded()
      reads this
    {
      |rows| > 0 && rows[0] == (0, Sentinel)
    }

    constructor ()
      ensures rows == [] && n == 0
      ensures Valid()
    {
      rows := [];
      n := 0;
    }

    /** Loading an existing table: `n` becomes the number of rows. */
    method Count()
      modifies this
      ensures rows == old(rows) && n == |rows|
    {
      n := |rows|;
    }

    /** Creates the table on a fresh store and inserts the sentinel. */
    method Create()
      modifies this
      ensures rows == [(0, Sentinel)] && n == 1
      ensures Valid() && Seeded()
    {
      n := 0;
      rows := [];
      SentinelPadded();
      Insert(SentinelCodePoint);
    }

    /** Appends `(n, cp padded to 8)` and advances the counter; the rows
        already present are untouched. */
    method Insert(cp: string)
      modifies this
      ensures rows == old(rows) + [(old(n), Pad8(cp))] && n == old(n) + 1
      ensures old(Valid()) ==> Valid()
      ensures old(Seeded()) ==> Seeded()
    {
      rows := rows + [(n, Pad8(cp))];
      n := n + 1;
    }

    /** The code point stored under index `x`, if any row has that index. */
    function Get(x: int): (r: Option<string>)
      reads this
      ensures Valid() ==> (r.Some? <==> 0 <= x < n)
      ensures Valid() && 0 <= x < n ==> r == Some(rows[x].1)
    {
      var r := Lookup(rows, x);
      assert Valid() && 0 <= x < n ==> rows[x].0 == x;
      r
    }
  }

  /** The filter of the `generate` loop, in the order the source applies its
      tests: no name and no stroke count skips; a missing `cp` skips (the
      caught TypeError); a `cp` that is not hex raises; a value of at least
      0xE0000 skips; anything else is inserted. */
  function Classify(r: CharRecord): (v: Verdict)
    ensures v.Keep? <==> (r.na.Some? || r.kTotalStrokes.Some?) && r.cp.Some? && IsHex(r.cp.value)
                         && HexValue(r.cp.value) < MaxCodePointExclusive
    ensures v.Keep? ==> v.cp == r.cp.value
    ensures v.Invalid? <==> (r.na.Some? || r.kTotalStrokes.Some?) && r.cp.Some? && !IsHex(r.cp.value)
  {
    if r.na.None? && r.kTotalStrokes.None? then Skip
    else if r.cp.None? then Skip
    else if !IsHex(r.cp.value) then Invalid
    else if HexValue(r.cp.value) >= MaxCodePointExclusive then Skip
    else Keep(r.cp.value)
  }

  /** A named letter is kept; an unnamed record without a stroke count, or
      one without `cp`, is skipped. */
  lemma ClassifyNamedAndUnnamed()
    ensures Classify(CharRecord(Some("0041"), Some("LATIN CAPITAL LETTER A"), None)) == Keep("0041")
    ensures Classify(CharRecord(Some("0041"), None, None)) == Skip
    ensures Classify(CharRecord(None, Some("X"), None)) == Skip
  {
    assert HexValue("0") == 0;
    assert "00"[..1] == "0";
    assert HexValue("00") == 0;
    assert "004"[..2] == "00";
    assert HexValue("004") == 4;
    assert "0041"[..3] == "004";
    assert HexValue("0041") == 65;
  }

  /** 0xE0000 is the first code point left out and 0xDFFFF the last one kept
      (here an unnamed ideograph admitted by its stroke count). */
  lemma ClassifyBoundary()
    ensures Classify(CharRecord(Some("E0000"), Some("LANGUAGE TAG"), None)) == Skip
    ensures Classify(CharRecord(Some("DFFFF"), None, Some("1"))) == Keep("DFFFF")
  {
    assert HexValue("E") == 14;
    assert "E0"[..1] == "E";
    assert HexValue("E0") == 224;
    assert "E00"[..2] == "E0";
    assert HexValue("E00") == 3584;
    assert "E000"[..3] == "E00";
    assert HexValue("E000") == 57344;
    assert "E0000"[..4] == "E000";
    assert HexValue("E0000") == 917504;
    assert HexValue("D") == 13;
    assert "DF"[..1] == "D";
    assert HexValue("DF") == 223;
    assert "DFF"[..2] == "DF";
    assert HexValue("DFF") == 3583;
    assert "DFFF"[..3] == "DFF";
    assert HexValue("DFFF") == 57343;
    assert "DFFFF"[..4] == "DFFF";
    assert HexValue("DFFFF") == 917503;
  }

  /** An empty or non-hex `cp` on a named record raises instead of being
      skipped. */
  lemma ClassifyRaises()
    ensures Classify(CharRecord(Some(""), Some("X"), None)) == Invalid
    ensures Classify(CharRecord(Some("12G4"), Some("X"), None)) == Invalid
  {
  }

  /** The code points the loop has inserted, and whether it stopped on an
      exception. */
  datatype Filtered = Filtered(kept: seq<string>, crashed: bool)

  /** The effect of the `generate` loop over `records` in document order:
      once a record raises, nothing after it is looked at. */
  function Filter(records: seq<CharRecord>): (f: Filtered)
    ensures f.crashed <==> exists i :: 0 <= i < |records| && Classify(records[i]).Invalid?
    ensures forall k :: 0 <= k < |f.kept| ==> IsHex(f.kept[k]) && HexValue(f.kept[k]) < MaxCodePointExclusive
    ensures |f.kept| <= |records|
  {
    if records == [] then Filtered([], false)
    else
      var init := records[..|records| - 1];
      var prev := Filter(init);
      assert forall i :: 0 <= i < |init| ==> init[i] == records[i];
      if prev.crashed then prev
      else match Classify(records[|records| - 1])
        case Skip => prev
        case Invalid => Filtered(prev.kept, true)
        case Keep(cp) => Filtered(prev.kept + [cp], false)
  }

  /** The number of records among `records` that the filter keeps. */
  function KeptCount(records: seq<CharRecord>): nat {
    if records == [] then 0
    else KeptCount(records[..|records| - 1]) + (if Classify(records[|records| - 1]).Keep? then 1 else 0)
  }

  /** Without an exception, the filter keeps exactly the accepted records, in
      document order: the i-th record, when accepted, lands at position
      "accepted records before it". */
  lemma {:induction false} FilterKeepsAcceptedInOrder(records: seq<CharRecord>)
    requires !Filter(records).crashed
    ensures |Filter(records).kept| == KeptCount(records)
    ensures forall i :: 0 <= i < |records| && Classify(records[i]).Keep? ==>
              KeptCount(records[..i]) < |Filter(records).kept| &&
              Filter(records).kept[KeptCount(records[..i])] == records[i].cp.value
  {
    if records != [] {
      var last := |records| - 1;
      var init := records[..last];
      FilterKeepsAcceptedInOrder(init);
      var prev := Filter(init).kept;
      var kept := Filter(records).kept;
      assert !Filter(init).crashed;
      assert kept == prev || kept == prev + [records[last].cp.value];
      assert kept[..|prev|] == prev;
      forall i | 0 <= i < |records| && Classify(records[i]).Keep?
        ensures KeptCount(records[..i]) < |kept| && kept[KeptCount(records[..i])] == records[i].cp.value
      {
        if i < last {
          assert records[..i] == init[..i];
          assert kept[KeptCount(init[..i])] == prev[KeptCount(init[..i])];
        } else {
          assert records[..i] == init;
        }
      }
    }
  }

  /** An exception stops the loop: the kept code points are those of the
      records before the first one that raises. */
  lemma {:induction false} FilterStopsAtFirstInvalid(records: seq<CharRecord>, j: int)
    requires 0 <= j < |records| && Classify(records[j]).Invalid?
    requires forall i :: 0 <= i < j ==> !Classify(records[i]).Invalid?
    ensures Filter(records) == Filtered(Filter(records[..j]).kept, true)
  {
    var init := records[..|records| - 1];
    if j < |records| - 1 {
      FilterStopsAtFirstInvalid(init, j);
      assert init[..j] == records[..j];
    } else {
      assert init == records[..j];
    }
  }

  /** The rows `generate` leaves behind: the sentinel at 0, then kept code
      point i - 1, padded, at row i. */
  function Table(kept: seq<string>): (t: seq<(int, string)>)
    ensures |t| == |kept| + 1 && t[0] == (0, Sentinel)
    ensures forall i :: 1 <= i < |t| ==> t[i] == (i, Pad8(kept[i - 1]))
  {
    if kept == [] then
      SentinelPadded();
      [(0, Pad8(SentinelCodePoint))]
    else
      var init := kept[..|kept| - 1];
      assert forall i :: 0 <= i < |init| ==> init[i] == kept[i];
      Table(init) + [(|kept|, Pad8(kept[|kept| - 1]))]
  }

  /** `generate`: create the table, then insert the code point of every
      accepted record in document order. `ok` is false when a record raised
      the uncaught ValueError; the table then holds what was inserted before
      it. */
  method Generate(records: seq<CharRecord>, db: Db) returns (ok: bool)
    modifies db
    ensures ok <==> !Filter(records).crashed
    ensures db.rows == Table(Filter(records).kept)
    ensures db.n == |Filter(records).kept| + 1
    ensures db.Valid() && db.Seeded()
  {
    db.Create();
    for i := 0 to |records|
      invariant !Filter(records[..i]).crashed
      invariant db.rows == Table(Filter(records[..i]).kept)
      invariant db.Valid() && db.Seeded()
    {
      var r := records[i];
      assert records[..i + 1][..i] == records[..i];
      if r.na.None? && r.kTotalStrokes.None? {
        continue;
      }
      if r.cp.None? {
        continue;
      }
      var cp := r.cp.value;
      if !IsHex(cp) {
        FilterStopsAtFirstInvalid(records, i);
        return false;
      }
      var v := HexValue(cp);
      if v >= MaxCodePointExclusive {
        continue;
      }
      ghost var kept := Filter(records[..i]).kept;
      assert (kept + [cp])[..|kept|] == kept;
      db.Insert(cp);
    }
    assert records[..|records|] == records;
    return true;
  }
}
