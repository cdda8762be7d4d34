/** Record layout on a page.  A table stores fixed-width records in slots of
    one page; the first byte of a slot marks it used (`'X'`) or free (any
    other byte, `'O'` after a delete), and the attributes of a record follow
    one after another from byte 1 of its buffer.  This module holds the
    arithmetic of that layout, the slot search, the byte effects of storing,
    erasing and fetching one record, and the encoding of attribute values.

    The record operations here act on the bytes of a page; the pinning,
    dirty marking and unpinning around them are the buffer pool's. */
module RecordMgr {
  import opened Types
  import opened StorageMgr

  // ---------------------------------------------------------------------
  // Schemas and sizes
  // ---------------------------------------------------------------------

  datatype DataType = Int | String | Float | Bool

  /** One attribute of a schema; `typeLength` is only read for strings. */
  datatype Attribute = Attribute(dataType: DataType, typeLength: nat)

  type Schema = seq<Attribute>

  /** Bytes an attribute occupies: an `int` and a `float` take 4, a `bool`
      takes 1 and a string takes its declared length (no terminator). */
  function AttrSize(a: Attribute): nat
  {
    match a.dataType
    case Int => 4
    case Float => 4
    case Bool => 1
    case String => a.typeLength
  }

  /** The sum of the attribute sizes of `s`. */
  function RecordSize(s: Schema): nat
  {
    if |s| == 0 then 0 else AttrSize(s[0]) + RecordSize(s[1..])
  }

  lemma {:induction false} RecordSizeAppend(s: Schema, a: Attribute)
    ensures RecordSize(s + [a]) == RecordSize(s) + AttrSize(a)
  {
    if |s| > 0 {
      assert (s + [a])[1..] == s[1..] + [a];
      RecordSizeAppend(s[1..], a);
    } else {
      assert (s + [a])[1..] == [];
    }
  }

  /** The size of a record as the record manager computes it: the loop sums
      the attribute sizes from the first attribute on. */
  method GetRecordSize(s: Schema) returns (recordSize: int)
    ensures recordSize == RecordSize(s)
  {
    recordSize := 0;
    var i := 0;
    while i < |s|
      invariant 0 <= i <= |s|
      invariant recordSize == RecordSize(s[..i])
    {
      assert s[..i + 1] == s[..i] + [s[i]];
      RecordSizeAppend(s[..i], s[i]);
      match s[i].dataType {
        case Int => recordSize := recordSize + 4;
        case Float => recordSize := recordSize + 4;
        case Bool => recordSize := recordSize + 1;
        case String => recordSize := recordSize + s[i].typeLength;
      }
      i := i + 1;
    }
    assert s[..i] == s;
  }

  /** Where attribute `k` starts in a record buffer: byte 0 is the slot
      marker, so the first attribute starts at 1 and each later one right
      after its predecessor. */
  function AttributeOffset(s: Schema, k: nat): nat
    requires k <= |s|
  {
    1 + RecordSize(s[..k])
  }

  /** The offset computation of the record manager: a loop adding the sizes
      of the attributes before `attrNum`.  A negative `attrNum` skips the
      loop. */
  method GetAttributeOffset(s: Schema, attrNum: int) returns (offset: int)
    requires attrNum <= |s|
    ensures offset == AttributeOffset(s, if attrNum < 0 then 0 else attrNum)
  {
    var i := 0;
    offset := 1;
    while i < attrNum
      invariant 0 <= i <= if attrNum < 0 then 0 else attrNum
      invariant offset == AttributeOffset(s, i)
    {
      assert s[..i + 1] == s[..i] + [s[i]];
      RecordSizeAppend(s[..i], s[i]);
      match s[i].dataType {
        case String => offset := offset + s[i].typeLength;
        case Int => offset := offset + 4;
        case Float => offset := offset + 4;
        case Bool => offset := offset + 1;
      }
      i := i + 1;
    }
  }

  /** Each attribute starts where the previous one ends. */
  lemma OffsetStep(s: Schema, k: nat)
    requires k < |s|
    ensures AttributeOffset(s, k + 1) == AttributeOffset(s, k) + AttrSize(s[k])
  {
    assert s[..k + 1] == s[..k] + [s[k]];
    RecordSizeAppend(s[..k], s[k]);
  }

  /** The offset one past the last attribute is the record size plus the
      marker byte: the attributes need `RecordSize(s) + 1` bytes of buffer. */
  lemma OffsetPastLast(s: Schema)
    ensures AttributeOffset(s, |s|) == RecordSize(s) + 1
  {
    assert s[..|s|] == s;
  }

  /** An attribute ends no later than any later one starts, so attributes
      never overlap, and offsets strictly increase past attributes of
      positive size. */
  lemma {:induction false} FieldsOrdered(s: Schema, j: nat, k: nat)
    requires j < k <= |s|
    ensures AttributeOffset(s, j) + AttrSize(s[j]) <= AttributeOffset(s, k)
    ensures AttrSize(s[j]) > 0 ==> AttributeOffset(s, j) < AttributeOffset(s, k)
    decreases k - j
  {
    OffsetStep(s, j);
    if j + 1 < k {
      FieldsOrdered(s, j + 1, k);
    }
  }

  /** Every attribute lies inside the bytes `[1, RecordSize(s) + 1)`. */
  lemma FieldWithinRecord(s: Schema, k: nat)
    requires k < |s|
    ensures 1 <= AttributeOffset(s, k)
    ensures AttributeOffset(s, k) + AttrSize(s[k]) <= RecordSize(s) + 1
  {
    OffsetPastLast(s);
    FieldsOrdered(s, k, |s|);
  }

  // ---------------------------------------------------------------------
  // Slots
  // ---------------------------------------------------------------------

  /** The marker of a used slot, `'X'`. */
  const MARK_USED: byte := 88
  /** The marker a delete leaves, `'O'`; a new record's buffer starts with it too. */
  const MARK_FREE: byte := 79

  /** Slots of `width` bytes that fit on a page. */
  function SlotCount(width: nat): nat
    requires width > 0
  {
    PAGE_SIZE / width
  }

  lemma MulMono(a: nat, b: nat, w: nat)
    requires a <= b
    ensures a * w <= b * w
  {
    assert b * w == a * w + (b - a) * w;
  }

  /** The first byte of slot `slot` when slots are `width` bytes wide. */
  function SlotStart(slot: nat, width: nat): (o: nat)
    ensures 0 < width && slot < SlotCount(width) ==> o + width <= PAGE_SIZE
  {
    if 0 < width && slot < SlotCount(width) then
      MulMono(slot + 1, PAGE_SIZE / width, width);
      slot * width
    else
      slot * width
  }

  /** Distinct slots never share a byte. */
  lemma SlotsDisjoint(j: nat, k: nat, width: nat)
    requires j < k
    ensures SlotStart(j, width) + width <= SlotStart(k, width)
  {
    MulMono(j + 1, k, width);
  }

  /** The first slot at or after `i` whose marker byte is not `'X'`, or -1. */
  function FindSlotFrom(data: seq<byte>, recordSize: nat, i: nat): (r: int)
    requires |data| == PAGE_SIZE && recordSize > 0
    requires i <= SlotCount(recordSize)
    ensures r == -1 || i <= r < SlotCount(recordSize)
    ensures r >= 0 ==> data[SlotStart(r, recordSize)] != MARK_USED
    ensures forall j :: i <= j < (if r == -1 then SlotCount(recordSize) else r) ==>
              data[SlotStart(j, recordSize)] == MARK_USED
    decreases SlotCount(recordSize) - i
  {
    if i == SlotCount(recordSize) then -1
    else if data[SlotStart(i, recordSize)] != MARK_USED then i
    else FindSlotFrom(data, recordSize, i + 1)
  }

  /** The first free slot of a page, or -1 when every slot that fits is used. */
  function FindSlot(data: seq<byte>, recordSize: nat): (r: int)
    requires |data| == PAGE_SIZE && recordSize > 0
    ensures r == -1 || 0 <= r < SlotCount(recordSize)
    ensures r >= 0 ==> data[SlotStart(r, recordSize)] != MARK_USED
    ensures forall j :: 0 <= j < (if r == -1 then SlotCount(recordSize) else r) ==>
              data[SlotStart(j, recordSize)] == MARK_USED
  {
    FindSlotFrom(data, recordSize, 0)
  }

  /** A slot of `width` bytes at `slot` that lies on the page. */
  predicate SlotOnPage(page: seq<byte>, slot: int, width: nat)
  {
    0 <= slot && 0 < width && SlotStart(slot, width) + width <= |page|
  }

  /** Stores a record in a slot: the marker becomes `'X'` and bytes
      `[1, width)` of the record buffer follow it. */
  function StoreSlot(page: seq<byte>, slot: int, width: nat, data: seq<byte>): (r: seq<byte>)
    requires SlotOnPage(page, slot, width) && width <= |data|
    ensures |r| == |page|
    ensures r[SlotStart(slot, width)] == MARK_USED
    ensures forall j :: 1 <= j < width ==> r[SlotStart(slot, width) + j] == data[j]
    ensures forall i :: 0 <= i < |page| && !(SlotStart(slot, width) <= i < SlotStart(slot, width) + width) ==>
              r[i] == page[i]
  {
    var o := SlotStart(slot, width);
    page[..o] + [MARK_USED] + data[1..width] + page[o + width..]
  }

  /** Marks a slot free by writing `'O'` over its marker byte. */
  function EraseSlot(page: seq<byte>, slot: int, width: nat): (r: seq<byte>)
    requires SlotOnPage(page, slot, width)
    ensures |r| == |page|
    ensures r[SlotStart(slot, width)] == MARK_FREE
    ensures forall i :: 0 <= i < |page| && i != SlotStart(slot, width) ==> r[i] == page[i]
  {
    page[SlotStart(slot, width) := MARK_FREE]
  }

  datatype RID = RID(page: int, slot: int)

  datatype Record = Record(id: RID, data: seq<byte>)

  /** Fetches a slot into a record buffer: the record takes the id, bytes
      `[1, width)` of the slot overwrite bytes `[1, width)` of the buffer,
      and byte 0 and anything past `width` are left as they were. */
  function FetchSlot(page: seq<byte>, id: RID, width: nat, into: Record): (r: Record)
    requires SlotOnPage(page, id.slot, width) && width <= |into.data|
    ensures r.id == id
    ensures |r.data| == |into.data|
    ensures forall j :: 1 <= j < width ==> r.data[j] == page[SlotStart(id.slot, width) + j]
    ensures forall j :: 0 <= j < |into.data| && !(1 <= j < width) ==> r.data[j] == into.data[j]
  {
    var o := SlotStart(id.slot, width);
    Record(id, into.data[..1] + page[o + 1..o + width] + into.data[width..])
  }

  /** What `deleteRecord` leaves: the page, and the table's first free page,
      which now names the page of the deleted record. */
  datatype Deletion = Deletion(page: seq<byte>, firstFreePage: int)

  // ---------------------------------------------------------------------
  // Properties of the slot operations, for any slot width
  // ---------------------------------------------------------------------

  /** A stored record reads back: every byte after the marker is the
      record's. */
  lemma StoreThenFetch(page: seq<byte>, id: RID, width: nat, data: seq<byte>, into: Record)
    requires SlotOnPage(page, id.slot, width) && width <= |data| && width <= |into.data|
    ensures FetchSlot(StoreSlot(page, id.slot, width, data), id, width, into)
            == Record(id, into.data[..1] + data[1..width] + into.data[width..])
  {
    var r := FetchSlot(StoreSlot(page, id.slot, width, data), id, width, into);
    assert r.data == into.data[..1] + data[1..width] + into.data[width..];
  }

  /** Storing into one slot leaves what every other slot reads unchanged. */
  lemma StoreLeavesOtherSlots(page: seq<byte>, slot: int, other: RID, width: nat, data: seq<byte>, into: Record)
    requires SlotOnPage(page, slot, width) && SlotOnPage(page, other.slot, width)
    requires slot != other.slot && width <= |data| && width <= |into.data|
    ensures FetchSlot(StoreSlot(page, slot, width, data), other, width, into) == FetchSlot(page, other, width, into)
  {
    if slot < other.slot {
      SlotsDisjoint(slot, other.slot, width);
    } else {
      SlotsDisjoint(other.slot, slot, width);
    }
  }

  /** A slot just stored into is never offered as free. */
  lemma StoreThenFindSlot(page: seq<byte>, slot: int, width: nat, data: seq<byte>)
    requires |page| == PAGE_SIZE && SlotOnPage(page, slot, width) && width <= |data|
    ensures FindSlot(StoreSlot(page, slot, width, data), width) != slot
  {
  }

  /** After a delete the search finds a free slot no later than the deleted
      one. */
  lemma EraseThenFindSlot(page: seq<byte>, slot: int, width: nat)
    requires |page| == PAGE_SIZE && 0 < width && 0 <= slot < SlotCount(width)
    ensures 0 <= FindSlot(EraseSlot(page, slot, width), width) <= slot
  {
    assert EraseSlot(page, slot, width)[SlotStart(slot, width)] != MARK_USED;
  }

  /** A slot the search returns lies wholly on the page. */
  lemma FoundSlotOnPage(page: seq<byte>, width: nat)
    requires |page| == PAGE_SIZE && 0 < width
    ensures FindSlot(page, width) >= 0 ==> SlotOnPage(page, FindSlot(page, width), width)
  {
  }

  // ---------------------------------------------------------------------
  // Attribute values
  // ---------------------------------------------------------------------

  newtype int32 = x: int | -0x8000_0000 <= x < 0x8000_0000

  /** An attribute value.  A float is carried as its four stored bytes. */
  datatype Value = IntV(i: int32) | FloatV(bits: seq<byte>) | BoolV(b: bool) | StringV(chars: seq<byte>)

  /** `v` is a value of the type of attribute `a`. */
  predicate ValueFits(a: Attribute, v: Value)
  {
    match v
    case IntV(_) => a.dataType == Int
    case FloatV(bits) => a.dataType == Float && |bits| == 4
    case BoolV(_) => a.dataType == Bool
    case StringV(_) => a.dataType == String
  }

  /** The four little-endian bytes of a two's-complement 32-bit integer. */
  function EncodeInt(v: int32): (b: seq<byte>)
    ensures |b| == 4
  {
    var u := if v < 0 then v as int + 0x1_0000_0000 else v as int;
    [(u % 256) as byte, (u / 256 % 256) as byte, (u / 256 / 256 % 256) as byte, (u / 256 / 256 / 256) as byte]
  }

  function DecodeInt(b: seq<byte>): int32
    requires |b| == 4
  {
    var u := b[0] as int + 256 * (b[1] as int + 256 * (b[2] as int + 256 * b[3] as int));
    (if u >= 0x8000_0000 then u - 0x1_0000_0000 else u) as int32
  }

  lemma DivMod256(x: int, y: int)
    requires 0 <= y < 256
    ensures (256 * x + y) / 256 == x && (256 * x + y) % 256 == y
  {
  }

  lemma DecodeEncodeInt(v: int32)
    ensures DecodeInt(EncodeInt(v)) == v
  {
    var u := if v < 0 then v as int + 0x1_0000_0000 else v as int;
    var q1 := u / 256;
    var q2 := q1 / 256;
    var q3 := q2 / 256;
    assert u == 256 * q1 + u % 256;
    assert q1 == 256 * q2 + q1 % 256;
    assert q2 == 256 * q3 + q2 % 256;
    assert u == u % 256 + 256 * (q1 % 256 + 256 * (q2 % 256 + 256 * q3));
  }

  lemma EncodeDecodeInt(b: seq<byte>)
    requires |b| == 4
    ensures EncodeInt(DecodeInt(b)) == b
  {
    var b0, b1, b2, b3 := b[0] as int, b[1] as int, b[2] as int, b[3] as int;
    var u := b0 + 256 * (b1 + 256 * (b2 + 256 * b3));
    DivMod256(b1 + 256 * (b2 + 256 * b3), b0);
    DivMod256(b2 + 256 * b3, b1);
    DivMod256(b3, b2);
    assert u / 256 / 256 / 256 == b3;
    var e := EncodeInt(DecodeInt(b));
    assert e[0] == b[0] && e[1] == b[1] && e[2] == b[2] && e[3] == b[3];
  }

  /** The C string a byte sequence holds: the bytes before its first NUL,
      or all of it when there is none. */
  function CStr(s: seq<byte>): (r: seq<byte>)
    ensures |r| <= |s| && r == s[..|r|]
    ensures forall j :: 0 <= j < |r| ==> r[j] != 0
    ensures |r| < |s| ==> s[|r|] == 0
  {
    if |s| == 0 || s[0] == 0 then [] else [s[0]] + CStr(s[1..])
  }

  /** A NUL-free prefix that ends at the end or at a NUL is the C string. */
  lemma {:induction false} CStrUnique(s: seq<byte>, t: seq<byte>)
    requires |t| <= |s| && t == s[..|t|]
    requires forall j :: 0 <= j < |t| ==> t[j] != 0
    requires |t| < |s| ==> s[|t|] == 0
    ensures CStr(s) == t
  {
    if |t| > 0 {
      CStrUnique(s[1..], t[1..]);
      assert t == [s[0]] + t[1..];
    }
  }

  /** `strncpy` into `n` bytes: what a reader finds there as a C string is
      the C string of `src`, cut at `n` bytes, and every byte past the end
      of the source string is NUL. */
  function StrNCpy(src: seq<byte>, n: nat): (r: seq<byte>)
    ensures |r| == n
    ensures CStr(r) == if |CStr(src)| <= n then CStr(src) else CStr(src)[..n]
    ensures forall j :: |CStr(src)| <= j < n ==> r[j] == 0
  {
    var r := seq(n, j requires 0 <= j < n => if j < |CStr(src)| then CStr(src)[j] else 0);
    var t := if |CStr(src)| <= n then CStr(src) else CStr(src)[..n];
    assert t == r[..|t|];
    CStrUnique(r, t);
    r
  }

  /** The bytes attribute `a` holds for value `v`. */
  function FieldBytes(a: Attribute, v: Value): (b: seq<byte>)
    requires ValueFits(a, v)
    ensures |b| == AttrSize(a)
  {
    match v
    case IntV(i) => EncodeInt(i)
    case FloatV(bits) => bits
    case BoolV(x) => [if x then 1 else 0]
    case StringV(c) => StrNCpy(c, a.typeLength)
  }

  /** Attribute `k` of schema `s` lies inside the buffer `data`. */
  predicate FieldInRecord(data: seq<byte>, s: Schema, k: nat)
  {
    k < |s| && AttributeOffset(s, k) + AttrSize(s[k]) <= |data|
  }

  /** The bytes of attribute `k` of a record buffer. */
  function Field(data: seq<byte>, s: Schema, k: nat): (b: seq<byte>)
    requires FieldInRecord(data, s, k)
    ensures |b| == AttrSize(s[k])
  {
    data[AttributeOffset(s, k)..AttributeOffset(s, k) + AttrSize(s[k])]
  }

  /** Sets attribute `k`: an int is stored as four bytes, a bool as one
      byte, a float as its four bytes, and a string by `strncpy` into the
      attribute's declared length. */
  function SetAttr(data: seq<byte>, s: Schema, k: nat, v: Value): (r: seq<byte>)
    requires FieldInRecord(data, s, k) && ValueFits(s[k], v)
    ensures |r| == |data|
    ensures Field(r, s, k) == FieldBytes(s[k], v)
    ensures forall i :: 0 <= i < |data| && !(AttributeOffset(s, k) <= i < AttributeOffset(s, k) + AttrSize(s[k])) ==>
              r[i] == data[i]
  {
    var o := AttributeOffset(s, k);
    var r := data[..o] + FieldBytes(s[k], v) + data[o + AttrSize(s[k])..];
    assert r[o..o + AttrSize(s[k])] == FieldBytes(s[k], v);
    r
  }

  /** Reads attribute `k`: a bool is true for any non-zero byte, and a
      string is the C string within the attribute's bytes. */
  function GetAttr(data: seq<byte>, s: Schema, k: nat): (v: Value)
    requires FieldInRecord(data, s, k)
    ensures ValueFits(s[k], v)
  {
    var b := Field(data, s, k);
    match s[k].dataType
    case Int => IntV(DecodeInt(b))
    case Float => FloatV(b)
    case Bool => BoolV(b[0] != 0)
    case String => StringV(CStr(b))
  }

  /** What reading back a stored value gives: the value itself, except that
      a string is cut at the attribute's length and at its first NUL. */
  function StoredValue(a: Attribute, v: Value): Value
  {
    match v
    case StringV(c) =>
      StringV(if |CStr(c)| <= a.typeLength then CStr(c) else CStr(c)[..a.typeLength])
    case _ => v
  }

  /** Setting an attribute and reading it back gives the value stored. */
  lemma SetThenGet(data: seq<byte>, s: Schema, k: nat, v: Value)
    requires FieldInRecord(data, s, k) && ValueFits(s[k], v)
    ensures GetAttr(SetAttr(data, s, k, v), s, k) == StoredValue(s[k], v)
  {
    match v
    case IntV(i) => DecodeEncodeInt(i);
    case FloatV(_) =>
    case BoolV(_) =>
    case StringV(c) =>
  }

  /** Reading an int attribute and storing the int read leaves the record's
      bytes as they were. */
  lemma GetThenSetInt(data: seq<byte>, s: Schema, k: nat)
    requires FieldInRecord(data, s, k) && s[k].dataType == Int
    ensures SetAttr(data, s, k, GetAttr(data, s, k)) == data
  {
    EncodeDecodeInt(Field(data, s, k));
    var r := SetAttr(data, s, k, GetAttr(data, s, k));
    assert forall i :: 0 <= i < |data| ==> r[i] == data[i] by {
      forall i | 0 <= i < |data|
        ensures r[i] == data[i]
      {
        var o := AttributeOffset(s, k);
        if o <= i < o + 4 {
          assert r[i] == Field(r, s, k)[i - o];
        }
      }
    }
  }

  /** Setting one attribute leaves every other attribute reading as before. */
  lemma SetAttrKeepsOthers(data: seq<byte>, s: Schema, k: nat, j: nat, v: Value)
    requires FieldInRecord(data, s, k) && ValueFits(s[k], v)
    requires FieldInRecord(data, s, j) && j != k
    ensures GetAttr(SetAttr(data, s, k, v), s, j) == GetAttr(data, s, j)
  {
    if j < k {
      FieldsOrdered(s, j, k);
    } else {
      FieldsOrdered(s, k, j);
    }
    assert Field(SetAttr(data, s, k, v), s, j) == Field(data, s, j);
  }

  // ---------------------------------------------------------------------
  // Records as the code lays them out
  // ---------------------------------------------------------------------

  /** `createRecord` as written: a buffer of `RecordSize(s)` bytes, whose
      first two bytes are `'O'` and NUL and whose rest is whatever the
      allocator left (`uninit`); the id is (-1, -1). */
  function CreateRecordAsWritten(s: Schema, uninit: seq<byte>): (r: Record)
    requires RecordSize(s) >= 2 && |uninit| == RecordSize(s)
    ensures r.id == RID(-1, -1)
    ensures |r.data| == RecordSize(s)
    ensures r.data[0] == MARK_FREE && r.data[1] == 0
    ensures r.data[2..] == uninit[2..]
  {
    Record(RID(-1, -1), [MARK_FREE, 0] + uninit[2..])
  }

  /** `updateRecord` as written: slots are `RecordSize(s)` bytes wide, the
      marker becomes `'X'` and only record bytes `[1, RecordSize(s))` follow
      it, so the record's byte `RecordSize(s)` is not stored. */
  function UpdateRecordAsWritten(page: seq<byte>, s: Schema, rec: Record): (r: seq<byte>)
    requires SlotOnPage(page, rec.id.slot, RecordSize(s)) && RecordSize(s) <= |rec.data|
    ensures |r| == |page|
    ensures r[SlotStart(rec.id.slot, RecordSize(s))] == MARK_USED
    ensures forall j :: 1 <= j < RecordSize(s) ==> r[SlotStart(rec.id.slot, RecordSize(s)) + j] == rec.data[j]
    ensures forall i :: 0 <= i < |page| && !(SlotStart(rec.id.slot, RecordSize(s)) <= i < SlotStart(rec.id.slot, RecordSize(s)) + RecordSize(s)) ==>
              r[i] == page[i]
  {
    StoreSlot(page, rec.id.slot, RecordSize(s), rec.data)
  }

  /** `deleteRecord` as written: the marker of the `RecordSize(s)`-byte slot
      becomes `'O'`, and the record's page becomes the first free page. */
  function DeleteRecordAsWritten(page: seq<byte>, s: Schema, id: RID): (r: Deletion)
    requires SlotOnPage(page, id.slot, RecordSize(s))
    ensures r.firstFreePage == id.page
    ensures |r.page| == |page|
    ensures r.page[SlotStart(id.slot, RecordSize(s))] == MARK_FREE
    ensures forall i :: 0 <= i < |page| && i != SlotStart(id.slot, RecordSize(s)) ==> r.page[i] == page[i]
  {
    Deletion(EraseSlot(page, id.slot, RecordSize(s)), id.page)
  }

  /** `getRecord` as written: bytes `[1, RecordSize(s))` of the
      `RecordSize(s)`-byte slot overwrite the same bytes of the buffer; the
      buffer's marker byte and its byte `RecordSize(s)` are left alone. */
  function GetRecordAsWritten(page: seq<byte>, s: Schema, id: RID, into: Record): (r: Record)
    requires SlotOnPage(page, id.slot, RecordSize(s)) && RecordSize(s) <= |into.data|
    ensures r.id == id && |r.data| == |into.data|
    ensures forall j :: 1 <= j < RecordSize(s) ==> r.data[j] == page[SlotStart(id.slot, RecordSize(s)) + j]
    ensures forall j :: 0 <= j < |into.data| && !(1 <= j < RecordSize(s)) ==> r.data[j] == into.data[j]
  {
    FetchSlot(page, id, RecordSize(s), into)
  }

  /** As written, the last attribute of a record ends one byte past the
      buffer `createRecord` allocates, so setting it writes out of bounds. */
  lemma LastAttributeOverrunsAsWritten(s: Schema, uninit: seq<byte>)
    requires |s| > 0 && RecordSize(s) >= 2 && |uninit| == RecordSize(s)
    ensures var rec := CreateRecordAsWritten(s, uninit);
            && AttributeOffset(s, |s| - 1) + AttrSize(s[|s| - 1]) == |rec.data| + 1
            && !FieldInRecord(rec.data, s, |s| - 1)
  {
    OffsetStep(s, |s| - 1);
    OffsetPastLast(s);
  }

  /** Even with a buffer large enough for every attribute, a slot of
      `RecordSize(s)` bytes drops the last byte of the last attribute: an int
      16777216 (bytes 0, 0, 0, 1) stored in a one-int schema reads back as 0. */
  lemma LastByteLostAsWritten(page: seq<byte>)
    requires |page| == PAGE_SIZE
    ensures var s := [Attribute(Int, 0)];
            var buffer := [MARK_FREE, 0, 0, 0, 0];
            var data := SetAttr(buffer, s, 0, IntV(16777216));
            var rec := Record(RID(1, 0), data);
            var stored := UpdateRecordAsWritten(page, s, rec);
            var got := GetRecordAsWritten(stored, s, rec.id, Record(rec.id, buffer));
            && GetAttr(data, s, 0) == IntV(16777216)
            && FieldInRecord(got.data, s, 0)
            && GetAttr(got.data, s, 0) == IntV(0)
  {
    var s := [Attribute(Int, 0)];
    assert RecordSize(s) == 4;
    assert AttributeOffset(s, 0) == 1 by { assert s[..0] == []; }
    var buffer: seq<byte> := [MARK_FREE, 0, 0, 0, 0];
    DecodeEncodeInt(16777216);
    var data := SetAttr(buffer, s, 0, IntV(16777216));
    assert EncodeInt(16777216) == [0, 0, 0, 1];
    assert data == [MARK_FREE, 0, 0, 0, 1];
    var rec := Record(RID(1, 0), data);
    assert SlotStart(0, 4) == 0;
    var stored := UpdateRecordAsWritten(page, s, rec);
    var got := GetRecordAsWritten(stored, s, rec.id, Record(rec.id, buffer));
    StoreThenFetch(page, rec.id, 4, data, Record(rec.id, buffer));
    assert got.data == [MARK_FREE, 0, 0, 0, 0];
    assert Field(got.data, s, 0) == [0, 0, 0, 0];
  }

  // ---------------------------------------------------------------------
  // Records with room for the marker byte
  // ---------------------------------------------------------------------

  /** The width a record needs: the marker byte and every attribute. */
  function SlotWidth(s: Schema): nat
  {
    RecordSize(s) + 1
  }

  /** A new record: a buffer of `SlotWidth(s)` bytes starting `'O'`, NUL,
      the rest as the allocator left it, and the id (-1, -1). */
  function CreateRecord(s: Schema, uninit: seq<byte>): (r: Record)
    requires RecordSize(s) >= 1 && |uninit| == SlotWidth(s)
    ensures r.id == RID(-1, -1)
    ensures |r.data| == SlotWidth(s)
    ensures r.data[0] == MARK_FREE && r.data[1] == 0
    ensures r.data[2..] == uninit[2..]
    ensures forall k :: 0 <= k < |s| ==> FieldInRecord(r.data, s, k)
  {
    forall k | 0 <= k < |s|
      ensures FieldInRecord([MARK_FREE, 0] + uninit[2..], s, k)
    {
      FieldWithinRecord(s, k);
    }
    Record(RID(-1, -1), [MARK_FREE, 0] + uninit[2..])
  }

  /** A new record's first attribute, when it is a string, reads as the
      empty string. */
  lemma NewRecordFirstStringEmpty(s: Schema, uninit: seq<byte>)
    requires RecordSize(s) >= 1 && |uninit| == SlotWidth(s)
    requires |s| > 0 && s[0].dataType == String && s[0].typeLength > 0
    ensures FieldInRecord(CreateRecord(s, uninit).data, s, 0)
    ensures GetAttr(CreateRecord(s, uninit).data, s, 0) == StringV([])
  {
    assert AttributeOffset(s, 0) == 1 by { assert s[..0] == []; }
    var b := Field(CreateRecord(s, uninit).data, s, 0);
    assert b[0] == 0;
    CStrUnique(b, []);
  }

  /** Stores a record in its slot (`rec.id.slot`), marking the slot used. */
  function UpdateRecord(page: seq<byte>, s: Schema, rec: Record): (r: seq<byte>)
    requires SlotOnPage(page, rec.id.slot, SlotWidth(s)) && SlotWidth(s) <= |rec.data|
    ensures |r| == |page|
    ensures r[SlotStart(rec.id.slot, SlotWidth(s))] == MARK_USED
    ensures forall j :: 1 <= j < SlotWidth(s) ==> r[SlotStart(rec.id.slot, SlotWidth(s)) + j] == rec.data[j]
    ensures forall i :: 0 <= i < |page| && !(SlotStart(rec.id.slot, SlotWidth(s)) <= i < SlotStart(rec.id.slot, SlotWidth(s)) + SlotWidth(s)) ==>
              r[i] == page[i]
  {
    StoreSlot(page, rec.id.slot, SlotWidth(s), rec.data)
  }

  /** Marks the slot of `id` free and makes its page the table's first free
      page; the slot is `SlotWidth(s)` bytes wide, as in every other record
      operation of this layout. */
  function DeleteRecord(page: seq<byte>, s: Schema, id: RID): (r: Deletion)
    requires SlotOnPage(page, id.slot, SlotWidth(s))
    ensures r.firstFreePage == id.page
    ensures |r.page| == |page|
    ensures forall i :: 0 <= i < |page| && i != SlotStart(id.slot, SlotWidth(s)) ==> r.page[i] == page[i]
    ensures r.page[SlotStart(id.slot, SlotWidth(s))] == MARK_FREE
  {
    Deletion(EraseSlot(page, id.slot, SlotWidth(s)), id.page)
  }

  /** Fetches the record in the slot of `id` into the buffer `into`. */
  function GetRecord(page: seq<byte>, s: Schema, id: RID, into: Record): (r: Record)
    requires SlotOnPage(page, id.slot, SlotWidth(s)) && SlotWidth(s) <= |into.data|
    ensures r.id == id && |r.data| == |into.data|
    ensures r.data[0] == into.data[0]
    ensures forall j :: 1 <= j < SlotWidth(s) ==> r.data[j] == page[SlotStart(id.slot, SlotWidth(s)) + j]
  {
    FetchSlot(page, id, SlotWidth(s), into)
  }

  /** With the free-slot search using the same `SlotWidth(s)` stride as the
      delete, a deleted slot is offered for reuse unless an earlier slot is
      free already. */
  lemma DeleteThenFindSlot(page: seq<byte>, s: Schema, id: RID)
    requires |page| == PAGE_SIZE && 0 <= id.slot < SlotCount(SlotWidth(s))
    ensures SlotOnPage(page, id.slot, SlotWidth(s))
    ensures var d := DeleteRecord(page, s, id);
            0 <= FindSlot(d.page, SlotWidth(s)) <= id.slot
  {
    EraseThenFindSlot(page, id.slot, SlotWidth(s));
  }

  /** Every attribute of a record survives a trip through its slot. */
  lemma RecordRoundTrip(page: seq<byte>, s: Schema, rec: Record, into: Record, k: nat)
    requires SlotOnPage(page, rec.id.slot, SlotWidth(s))
    requires |rec.data| == SlotWidth(s) && |into.data| == SlotWidth(s)
    requires k < |s|
    ensures FieldInRecord(rec.data, s, k)
    ensures var got := GetRecord(UpdateRecord(page, s, rec), s, rec.id, into);
            && got.id == rec.id
            && got.data == into.data[..1] + rec.data[1..]
            && FieldInRecord(got.data, s, k)
            && GetAttr(got.data, s, k) == GetAttr(rec.data, s, k)
  {
    FieldWithinRecord(s, k);
    StoreThenFetch(page, rec.id, SlotWidth(s), rec.data, into);
    var got := GetRecord(UpdateRecord(page, s, rec), s, rec.id, into);
    assert Field(got.data, s, k) == Field(rec.data, s, k);
  }

  /** A value set on a record, stored in a slot and fetched back reads as
      stored. */
  lemma SetStoreFetchGet(page: seq<byte>, s: Schema, rec: Record, into: Record, k: nat, v: Value)
    requires SlotOnPage(page, rec.id.slot, SlotWidth(s))
    requires |rec.data| == SlotWidth(s) && |into.data| == SlotWidth(s)
    requires k < |s|
    ensures FieldInRecord(rec.data, s, k)
    ensures ValueFits(s[k], v) ==>
              var updated := rec.(data := SetAttr(rec.data, s, k, v));
              var got := GetRecord(UpdateRecord(page, s, updated), s, rec.id, into);
              FieldInRecord(got.data, s, k) && GetAttr(got.data, s, k) == StoredValue(s[k], v)
  {
    FieldWithinRecord(s, k);
    if ValueFits(s[k], v) {
      var updated := rec.(data := SetAttr(rec.data, s, k, v));
      RecordRoundTrip(page, s, updated, into, k);
      SetThenGet(rec.data, s, k, v);
    }
  }
}
