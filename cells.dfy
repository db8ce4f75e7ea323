/** The typed value cell (`wmi_any<AnySize>`): a CIM type tag and a fixed reserved area of
    `AnySize` bytes into which one property value is read. */
module Cells {
  import opened Types
  import opened Provider

  /** The reserved area of the helper instantiated as `wmi_helper_32`. */
  const AnySize: nat := 32

  /** `sizeof(wmi_any<n>)`: a 4-byte `CIMTYPE` followed by `n` bytes, padded to 4-byte alignment. */
  function SizeOfAny(n: nat): (s: nat)
    ensures n + 4 <= s <= n + 7
    ensures s % 4 == 0
  {
    4 + (n + 3) / 4 * 4
  }

  /** One read property value: the tag resolved on row 0 and the reserved bytes after the read. */
  datatype Cell = Cell(tag: int, payload: seq<byte>)

  /** The reserved area after copying `bytes` into a zero-initialised cell. */
  function Pad(bytes: seq<byte>): (r: seq<byte>)
    requires |bytes| <= AnySize
    ensures |r| == AnySize && r[..|bytes|] == bytes
    ensures forall i :: |bytes| <= i < AnySize ==> r[i] == 0
  {
    bytes + seq(AnySize - |bytes|, _ => 0)
  }

  /** The byte count the source hands to `ReadPropertyValue`: the size of the whole cell,
      although the destination is the reserved area only. */
  function ReadCapacityAsWritten(): (c: nat)
    ensures c == AnySize + 4
  {
    SizeOfAny(AnySize)
  }

  /** The bytes the source's read would copy to the start of the reserved area. */
  function ReadBytesAsWritten(obj: Obj, p: PropertyHandle): (r: Option<seq<byte>>)
    ensures r.Some? <==> p.handle in obj.values && |obj.values[p.handle]| <= AnySize + 4
  {
    ReadPropertyValue(obj, p.handle, ReadCapacityAsWritten())
  }

  /** A 34-byte value (a 16-character wide string with its terminator) is accepted by the
      source's read although the reserved area holds only 32 bytes: the copy runs past it. */
  lemma AsWrittenReadOverrunsReserved()
    ensures var v := seq(34, _ => 65 as byte);
            var obj := Obj(map["Name" := PropertyHandle(8, 0)], map[0 := v]);
            ReadBytesAsWritten(obj, obj.props["Name"]) == Some(v) && |v| > AnySize
  {
  }

  /** The read with the reserved area's own size as its ceiling: a value that fits is kept
      whole, followed by zeroes; an unknown handle or an oversized value fails the read. */
  function ReadCell(obj: Obj, p: PropertyHandle): (r: Option<Cell>)
    ensures r.Some? <==> p.handle in obj.values && |obj.values[p.handle]| <= AnySize
    ensures r.Some? ==> r.value.tag == p.tag && |r.value.payload| == AnySize
    ensures r.Some? ==> r.value.payload[..|obj.values[p.handle]|] == obj.values[p.handle]
  {
    match ReadPropertyValue(obj, p.handle, AnySize)
    case None => None
    case Some(bytes) => Some(Cell(p.tag, Pad(bytes)))
  }

  /** Every value the corrected read accepts fits the reserved area, and so does every value
      the source's read accepts that is not longer than it: the two agree exactly there. */
  lemma ReadCellAgreesWhereNoOverrun(obj: Obj, p: PropertyHandle)
    ensures ReadCell(obj, p).Some? ==> ReadBytesAsWritten(obj, p).Some?
    ensures ReadBytesAsWritten(obj, p).Some? && |ReadBytesAsWritten(obj, p).value| <= AnySize
            ==> ReadCell(obj, p) == Some(Cell(p.tag, Pad(ReadBytesAsWritten(obj, p).value)))
  {
  }
}
