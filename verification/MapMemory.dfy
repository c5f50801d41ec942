/**
 The instruction map as it lies in memory: an array of records, and why the cell of an unchained branch holds the
 original target of that branch.
*/
module MapMemory {
  import opened Words
  import opened Instructions
  import opened InstrMap
  import opened Machine
  import opened LinkedCode

  function Pow256(n: nat): nat { if n == 0 then 1 else 256 * Pow256(n - 1) }

  /** The lowest `n` bytes of `x`, little-endian. */
  function LittleEndian(x: nat, n: nat): (bs: seq<byte>)
    ensures |bs| == n
  {
    if n == 0 then [] else [x % 256] + LittleEndian(x / 256, n - 1)
  }

  function FromLittleEndian(bs: seq<byte>): nat {
    if bs == [] then 0 else bs[0] + 256 * FromLittleEndian(bs[1..])
  }

  lemma {:induction false} LittleEndianBack(x: nat, n: nat)
    requires x < Pow256(n)
    ensures FromLittleEndian(LittleEndian(x, n)) == x
  {
    if n > 0 {
      LittleEndianBack(x / 256, n - 1);
      assert LittleEndian(x, n)[1..] == LittleEndian(x / 256, n - 1);
    }
  }

  lemma {:induction false} AddrBytes(a: Addr)
    ensures FromLittleEndian(LittleEndian(a, 8)) == a
  {
    assert Pow256(8) == 256 * 256 * 256 * 256 * 256 * 256 * 256 * 256 by {
      assert Pow256(2) == 256 * 256 && Pow256(4) == 256 * 256 * Pow256(2) && Pow256(6) == 256 * 256 * Pow256(4);
    }
    LittleEndianBack(a, 8);
  }

  function CategoryCode(c: Category): byte {
    match c case CondBr => 1 case UncondBr => 2 case CallCat => 3 case RetCat => 4 case Other => 0
  }

  /** One record: its fields in the order of their declaration, and four bytes to make its length a multiple of
      eight. */
  function RecordOf(e: Entry): (r: seq<byte>)
    ensures |r| == 56
  {
    LittleEndian(e.origInsAddr, 8) + LittleEndian(e.newInsAddr, 8) + LittleEndian(e.origTargAddr, 8) +
    [if e.hasNewTargAddr then 1 else 0] + e.encodedIns + LittleEndian(CategoryCode(e.category), 4) +
    LittleEndian(e.size, 4) + LittleEndian(e.targMapEntry % TWO32, 4) + LittleEndian(0, 4)
  }

  /** The records, one after the other. */
  function MapBytes(table: seq<Entry>): (bs: seq<byte>)
    ensures |bs| == 56 * |table|
  {
    if table == [] then [] else MapBytes(table[..|table| - 1]) + RecordOf(table[|table| - 1])
  }

  /** `o` bytes behind the start of the map. */
  function InMap(base: Addr, o: nat): Addr { W64(base + o) }

  /** The memory from `base` on is the map: what is read there as an address are eight bytes of it. */
  ghost predicate MapHeld<D(!new)>(sem: Sem<D>, table: seq<Entry>, base: Addr) {
    forall o: nat, d: D :: o + 8 <= |MapBytes(table)| ==>
      sem.cell(InMap(base, o), d) == FromLittleEndian(MapBytes(table)[o..o + 8])
  }

  lemma {:induction false} RecordAt(table: seq<Entry>, k: nat)
    requires k < |table|
    ensures MapBytes(table)[56 * k..56 * k + 56] == RecordOf(table[k])
  {
    hide RecordOf;
    var n := |table| - 1;
    var front, last := MapBytes(table[..n]), RecordOf(table[n]);
    assert MapBytes(table) == front + last;
    if k < n {
      RecordAt(table[..n], k);
      SameSlice(front + last, front, 56 * k, 56 * k + 56);
    } else {
      assert (front + last)[56 * n..56 * n + 56] == last;
    }
  }

  /** The third field of record `k` is the original target of entry `k`. */
  lemma {:induction false} TargetInMap(table: seq<Entry>, k: nat)
    requires k < |table|
    ensures FromLittleEndian(MapBytes(table)[56 * k + 16..56 * k + 24]) == table[k].origTargAddr
  {
    hide MapBytes, LittleEndian, FromLittleEndian;
    RecordAt(table, k);
    assert RecordOf(table[k])[16..24] == LittleEndian(table[k].origTargAddr, 8);
    assert MapBytes(table)[56 * k + 16..56 * k + 24] == MapBytes(table)[56 * k..56 * k + 56][16..24];
    AddrBytes(table[k].origTargAddr);
  }

  /** With the map in memory, a jump through the cell of an entry goes to the original target of that entry. */
  lemma {:induction false} MapHoldsCells<D(!new)>(
      sem: Sem<D>, items: seq<Item>, table: seq<Entry>, tc: Segment, base: Addr)
    requires Translated(items, table, tc, base) && MapHeld(sem, table, base)
    ensures CellsHeld(sem, items, table, base)
  {
    hide MapBytes, FromLittleEndian, EntryOf, W64, TargetOf;
    forall k, d: D {:trigger sem.cell(CellOf(base, k), d)} | 0 <= k < |items|
      ensures sem.cell(CellOf(base, k), d) == TargetOf(items[k])
    {
      EntriesOfAt(items, table, k);
      TargetOfEntry(items[k], table[k]);
      TargetInMap(table, k);
      assert CellOf(base, k) == InMap(base, 56 * k + 16);
    }
  }

  lemma {:induction false} TargetOfEntry(it: Item, e: Entry)
    requires EntryOf(it, e)
    ensures e.origTargAddr == TargetOf(it)
  {
  }

  /** The cells of different entries have no byte in common. */
  lemma {:induction false} CellsApart(base: Addr, n: nat, j: nat, k: nat, a: nat, b: nat)
    requires j < n && k < n && j != k && a < 8 && b < 8 && 56 * n <= TWO64
    ensures W64(CellOf(base, j) + a) != W64(CellOf(base, k) + b)
  {
    hide W64;
    var x, y := base + 56 * j + 16, base + 56 * k + 16;
    assert j < k ==> 56 * k - 56 * j >= 56;
    assert k < j ==> 56 * j - 56 * k >= 56;
    W64Absorbs(x, a);
    W64Absorbs(y, b);
    W64Distinct(x + a, y + b);
  }
}
