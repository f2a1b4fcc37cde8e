/**
 * The sheet and the cell pointer of src/CellPointer.ts.  The private copies
 * of the pointer in src/ingest.ts and src/ingestNg.ts are the same class;
 * the one difference, that the copy in src/ingest.ts reads formatted text
 * without decoding it, is `GetRawString`.
 */
module Grid {
  import opened Wrappers
  import opened Strings
  import opened CellAddress

  /** The raw value `v` of a cell: a JavaScript number, string or boolean, or absent. */
  datatype Value = Number(n: real) | Text(s: string) | Boolean(b: bool) | NoValue

  /** A cell: its formatted text `w` (possibly absent) and its raw value `v`. */
  datatype Cell = Cell(w: Option<string>, v: Value)

  /** The first worksheet, keyed by (column, row); read only during a run. */
  type Sheet = map<(int, int), Cell>

  function CellAt(sheet: Sheet, x: nat, y: nat): (r: Option<Cell>)
    ensures r.Some? <==> (x, y) in sheet
    ensures r.Some? ==> r.value == sheet[(x, y)]
  {
    if (x, y) in sheet then Some(sheet[(x, y)]) else None
  }

  /** JavaScript truthiness of a cell value: 0, "" and false are falsy. */
  predicate Truthy(v: Value) {
    match v
    case Number(n) => n != 0.0
    case Text(s) => s != ""
    case Boolean(b) => b
    case NoValue => false
  }

  /** `Number.isInteger(v)` */
  predicate IsWholeNumber(v: Value) {
    v.Number? && v.n.Floor as real == v.n
  }

  /** `isInteger()` at (x, y): `cell && cell.v ? Number.isInteger(cell.v) : false`. */
  predicate IsIntegerAt(sheet: Sheet, x: nat, y: nat) {
    (x, y) in sheet && Truthy(sheet[(x, y)].v) && IsWholeNumber(sheet[(x, y)].v)
  }

  /**
   * A missing cell, a non-numeric value and the falsy 0 are never integers;
   * a cell holding a whole number k is one exactly when k is not 0.
   */
  lemma IsIntegerAtCases(sheet: Sheet, x: nat, y: nat, k: int)
    ensures (x, y) !in sheet ==> !IsIntegerAt(sheet, x, y)
    ensures (x, y) in sheet && !sheet[(x, y)].v.Number? ==> !IsIntegerAt(sheet, x, y)
    ensures (x, y) in sheet && sheet[(x, y)].v == Number(k as real) ==> (IsIntegerAt(sheet, x, y) <==> k != 0)
  {
  }

  /** `getNumber()`, only used where `isInteger()` holds. */
  function NumberAt(sheet: Sheet, x: nat, y: nat): (k: int)
    requires IsIntegerAt(sheet, x, y)
    ensures k != 0 && sheet[(x, y)].v == Number(k as real)
  {
    sheet[(x, y)].v.n.Floor
  }

  const Cedilla: char := '\U{00B8}'
  const Circumflex: char := '\U{02C6}'

  /**
   * `decodeString(s)`: the first cedilla becomes "ü" and then the first
   * modifier circumflex becomes "ö" (two characters the sheets mis-render).
   */
  function DecodeString(s: string): (r: string)
    ensures |r| == |s|
  {
    ReplaceFirst(ReplaceFirst(s, Cedilla, 'ü'), Circumflex, 'ö')
  }

  /**
   * Decoding leaves a string without the two marks alone, rewrites the
   * first cedilla to "ü" and the first circumflex to "ö", and keeps every
   * other character, later cedillas and circumflexes included.
   */
  lemma DecodeStringSpec(s: string)
    ensures Cedilla !in s && Circumflex !in s ==> DecodeString(s) == s
    ensures Cedilla in s ==> |Before(s, Cedilla)| < |s| && DecodeString(s)[|Before(s, Cedilla)|] == 'ü'
    ensures Circumflex in s ==> |Before(s, Circumflex)| < |s| && DecodeString(s)[|Before(s, Circumflex)|] == 'ö'
    ensures forall i ::
      (0 <= i < |s| && !(Cedilla in s && i == |Before(s, Cedilla)|) && !(Circumflex in s && i == |Before(s, Circumflex)|))
      ==> DecodeString(s)[i] == s[i]
  {
    var t := ReplaceFirst(s, Cedilla, 'ü');
    ReplaceFirstSpec(s, Cedilla, 'ü');
    ReplaceFirstSpec(t, Circumflex, 'ö');
    BeforeSpec(s, Cedilla);
    BeforeSpec(s, Circumflex);
    BeforeSpec(t, Circumflex);
    if Cedilla !in s {
      assert Circumflex in t <==> Circumflex in s;
    }
    if Circumflex in t {
      var k := |Before(t, Circumflex)|;
      assert t[k] == Circumflex;
      if Cedilla in s {
        assert k != |Before(s, Cedilla)|;
      }
    }
  }

  /** `getString()` of src/CellPointer.ts and src/ingestNg.ts. */
  function DecodedText(sheet: Sheet, x: nat, y: nat): (s: string)
    ensures (x, y) !in sheet ==> s == ""
    ensures (x, y) in sheet && sheet[(x, y)].w.None? ==> s == ""
    ensures (x, y) in sheet && sheet[(x, y)].w.Some? ==> s == DecodeString(sheet[(x, y)].w.value)
  {
    match CellAt(sheet, x, y)
    case None => ""
    case Some(cell) => if cell.w.Some? && cell.w.value != "" then DecodeString(cell.w.value) else ""
  }

  /**
   * `getString()` of src/ingest.ts: `cell ? cell.w : ''`, without decoding.
   * A cell without formatted text would yield `undefined` there; it reads
   * as the empty string here.
   */
  function RawText(sheet: Sheet, x: nat, y: nat): (s: string)
    ensures (x, y) !in sheet ==> s == ""
    ensures (x, y) in sheet && sheet[(x, y)].w.None? ==> s == ""
    ensures (x, y) in sheet && sheet[(x, y)].w.Some? ==> s == sheet[(x, y)].w.value
  {
    match CellAt(sheet, x, y)
    case None => ""
    case Some(cell) => if cell.w.Some? then cell.w.value else ""
  }

  /** One past the largest row of any cell: below it every cell is missing. */
  ghost function RowBound(keys: set<(int, int)>): (b: nat)
    ensures forall k :: k in keys ==> k.1 < b
  {
    if keys == {} then 0 else
      var k :| k in keys;
      var rest := RowBound(keys - {k});
      if k.1 + 1 > rest then k.1 + 1 else rest
  }

  /** One past the largest column of any cell. */
  ghost function ColBound(keys: set<(int, int)>): (b: nat)
    ensures forall k :: k in keys ==> k.0 < b
  {
    if keys == {} then 0 else
      var k :| k in keys;
      var rest := ColBound(keys - {k});
      if k.0 + 1 > rest then k.0 + 1 else rest
  }

  /**
   * The bounded search of the table locators: the row where a scan that
   * starts at `y` and moves down while `hit` fails, for at most `budget`
   * steps, comes to rest.  The search succeeded exactly when that row lies
   * below `y + budget`.
   */
  function ScanDown(hit: nat -> bool, y: nat, budget: nat): (r: nat)
    ensures y <= r <= y + budget
  {
    ScanTo(hit, y, y + budget)
  }

  /** The scan from `y` that gives up on reaching row `end`. */
  function ScanTo(hit: nat -> bool, y: nat, end: nat): (r: nat)
    requires y <= end
    ensures y <= r <= end
    decreases end - y
  {
    if y == end || hit(y) then y else ScanTo(hit, y + 1, end)
  }

  lemma {:induction false} ScanToSpec(hit: nat -> bool, y: nat, end: nat)
    requires y <= end
    ensures forall k :: y <= k < ScanTo(hit, y, end) ==> !hit(k)
    ensures ScanTo(hit, y, end) < end ==> hit(ScanTo(hit, y, end))
    decreases end - y
  {
    if y < end && !hit(y) {
      ScanToSpec(hit, y + 1, end);
    }
  }

  /** The scan passes only rows that miss, and it stops early exactly on a hit. */
  lemma ScanDownSpec(hit: nat -> bool, y: nat, budget: nat)
    ensures forall k :: y <= k < ScanDown(hit, y, budget) ==> !hit(k)
    ensures ScanDown(hit, y, budget) < y + budget ==> hit(ScanDown(hit, y, budget))
    ensures budget > 0 && hit(y) ==> ScanDown(hit, y, budget) == y
  {
    ScanToSpec(hit, y, y + budget);
  }

  /** Two probes that agree on the rows a scan can visit give the same scan. */
  lemma {:induction false} ScanToAgree(hit: nat -> bool, hit': nat -> bool, y: nat, end: nat)
    requires y <= end
    requires forall k :: y <= k < end ==> hit(k) == hit'(k)
    ensures ScanTo(hit, y, end) == ScanTo(hit', y, end)
    decreases end - y
  {
    if y < end {
      ScanToAgree(hit, hit', y + 1, end);
    }
  }

  /** The first row below `y` where `hit` holds, given that row `k` is one. */
  function NextHitBelow(hit: nat -> bool, y: nat, k: nat): (r: nat)
    requires y < k && hit(k)
    ensures y < r <= k && hit(r)
    decreases k - y
  {
    if hit(y + 1) then y + 1 else NextHitBelow(hit, y + 1, k)
  }

  /** No row strictly between `y` and the row found is a hit, whichever hit `k` bounds the search. */
  lemma {:induction false} NextHitBelowSpec(hit: nat -> bool, y: nat, k: nat, k': nat)
    requires y < k && hit(k) && y < k' && hit(k')
    ensures forall j :: y < j < NextHitBelow(hit, y, k) ==> !hit(j)
    ensures NextHitBelow(hit, y, k) == NextHitBelow(hit, y, k')
    decreases k - y
  {
    if !hit(y + 1) {
      NextHitBelowSpec(hit, y + 1, k, k');
    }
  }

  /** Two probes that agree between `y` and `k` find the same next hit. */
  lemma {:induction false} NextHitBelowAgree(hit: nat -> bool, hit': nat -> bool, y: nat, k: nat)
    requires y < k && hit(k) && hit'(k)
    requires forall j :: y < j <= k ==> hit(j) == hit'(j)
    ensures NextHitBelow(hit, y, k) == NextHitBelow(hit', y, k)
    decreases k - y
  {
    if !hit(y + 1) {
      NextHitBelowAgree(hit, hit', y + 1, k);
    }
  }

  /** A position (x, y) on a sheet that never changes. */
  class CellPointer {
    const sheet: Sheet
    var x: nat
    var y: nat

    constructor (sheet: Sheet, x: nat, y: nat)
      ensures this.sheet == sheet && this.x == x && this.y == y
    {
      this.sheet := sheet;
      this.x := x;
      this.y := y;
    }

    function GetCell(): Option<Cell>
      reads this
    {
      CellAt(sheet, x, y)
    }

    function GetString(): string
      reads this
    {
      DecodedText(sheet, x, y)
    }

    function GetRawString(): string
      reads this
    {
      RawText(sheet, x, y)
    }

    predicate IsInteger()
      reads this
    {
      IsIntegerAt(sheet, x, y)
    }

    function GetNumber(): int
      reads this
      requires IsInteger()
    {
      NumberAt(sheet, x, y)
    }

    /** `toString()`: the address of the current cell. */
    function ToString(): string
      reads this
    {
      EncodeCell(x, y)
    }

    /** `clone()`: a new pointer at the same place over the same sheet. */
    method Clone() returns (p: CellPointer)
      ensures fresh(p) && p.sheet == sheet && p.x == x && p.y == y
    {
      p := new CellPointer(sheet, x, y);
    }

    /**
     * The bounded downward search of the table locators: step down while
     * the current row misses, but no more than `budget` rows below the
     * starting one.
     */
    method SeekDown(hit: nat -> bool, budget: nat)
      modifies this
      ensures x == old(x) && y == ScanDown(hit, old(y), budget)
    {
      var initialY := y;
      ghost var end := initialY + budget;
      ghost var target := ScanTo(hit, initialY, end);
      while !hit(y) && y - initialY < budget
        invariant x == old(x) && initialY <= y <= end
        invariant ScanTo(hit, y, end) == target
        decreases end - y
      {
        y := y + 1;
      }
    }

    /**
     * A `do … while` walk down: step at least once, then on until a row
     * where `hit` holds; row `k` below is one.  Returns the number of steps.
     */
    method StepDownUntil(hit: nat -> bool, ghost k: nat) returns (steps: nat)
      requires y < k && hit(k)
      modifies this
      ensures x == old(x)
      ensures y == NextHitBelow(hit, old(y), k)
      ensures steps == y - old(y)
    {
      ghost var target := NextHitBelow(hit, y, k);
      steps := 0;
      steps := steps + 1;
      y := y + 1;
      while !hit(y)
        invariant x == old(x) && old(y) < y <= target <= k && steps == y - old(y)
        invariant NextHitBelow(hit, y - 1, k) == target
        decreases target - y
      {
        assert NextHitBelow(hit, y, k) == target;
        steps := steps + 1;
        y := y + 1;
      }
      assert NextHitBelow(hit, y - 1, k) == y;
    }

    /** `CellPointer.fromString(sheet, s)`: a new pointer at the address `s`. */
    static method FromString(sheet: Sheet, s: string) returns (p: CellPointer)
      requires DecodeCell(s).Some?
      ensures fresh(p) && p.sheet == sheet && (p.x, p.y) == DecodeCell(s).value
    {
      var dec := DecodeCell(s).value;
      p := new CellPointer(sheet, dec.0, dec.1);
    }
  }
}
