/** The encoders of encoder.py as they run: pieces written one after the other to a stream. */
module Writer {
  import opened Wire
  import opened Schema
  import opened Encoder

  /** The StringIO behind `write_bytes`. */
  class Output {
    var bytes: seq<byte>

    constructor ()
      ensures bytes == []
    {
      bytes := [];
    }

    method Write(piece: seq<byte>)
      modifies this
      ensures bytes == old(bytes) + piece
    {
      bytes := bytes + piece;
    }

    /** `_EncodeVarint`. */
    method WriteVarint(value: nat)
      modifies this
      ensures bytes == old(bytes) + Varint(value)
    {
      var bits: nat, rest: nat := value % 128, value / 128;
      while rest != 0
        invariant bytes + (if rest == 0 then [bits] else [128 + bits] + Varint(rest)) == old(bytes) + Varint(value)
        invariant 0 <= bits < 128
        decreases rest
      {
        ghost var before := bytes;
        Write([128 + bits]);
        assert bytes + Varint(rest) == before + ([128 + bits] + Varint(rest));
        assert Varint(rest) == if rest / 128 == 0 then [rest % 128] else [128 + rest % 128] + Varint(rest / 128);
        bits, rest := rest % 128, rest / 128;
      }
      Write([bits]);
    }

    /** `_EncodeSignedVarint`. */
    method WriteSignedVarint(value: int)
      requires -TWO_64 <= value < TWO_63
      modifies this
      ensures bytes == old(bytes) + SignedVarint(value)
    {
      WriteVarint(if value < 0 then value + TWO_64 else value);
    }

    method WriteTag(number: nat, wireType: nat)
      requires wireType < 8
      modifies this
      ensures bytes == old(bytes) + TagBytes(number, wireType)
    {
      WriteVarint(number * 8 + wireType);
    }

    /** `encode_value` of the field's type. */
    method WriteScalar(st: ScalarType, v: Value)
      requires Storable(st, v)
      modifies this
      ensures bytes == old(bytes) + ScalarBytes(st, v)
    {
      match st {
        case Int32 | Int64 | Enum(_) => WriteSignedVarint(v.i);
        case UInt32 | UInt64 => WriteVarint(v.i);
        case SInt32 | SInt64 => WriteVarint(ZigZag(v.i));
        case Fixed32 | Float => Write(LittleEndian(v.i, 4));
        case Fixed64 | Double => Write(LittleEndian(v.i, 8));
        case SFixed32 => Write(LittleEndian(v.i % TWO_32, 4));
        case SFixed64 => Write(LittleEndian(v.i % TWO_64, 8));
        case Bool => Write([if Truthy(v) then 1 else 0]);
        case Str | Bytes =>
          ghost var before := bytes;
          WriteVarint(|v.bytes|);
          Write(v.bytes);
          assert bytes == before + (Varint(|v.bytes|) + v.bytes);
      }
    }

    /** `EncodeRepeatedField`. */
    method WriteRepeated(number: nat, st: ScalarType, vs: seq<Value>)
      requires AllInRange(st, vs)
      modifies this
      ensures bytes == old(bytes) + RepeatedBytes(number, st, vs)
    {
      hide TagBytes, ScalarBytes;
      for i := 0 to |vs|
        invariant bytes + RepeatedBytes(number, st, vs[i..]) == old(bytes) + RepeatedBytes(number, st, vs)
      {
        ghost var before := bytes;
        assert vs[i..][1..] == vs[i + 1..];
        WriteTag(number, ScalarWireType(st));
        WriteScalar(st, vs[i]);
        assert bytes == before + (TagBytes(number, ScalarWireType(st)) + ScalarBytes(st, vs[i]));
        Associates(before, TagBytes(number, ScalarWireType(st)) + ScalarBytes(st, vs[i]),
                   RepeatedBytes(number, st, vs[i + 1..]));
      }
      assert vs[|vs|..] == [];
    }

    /** `EncodePackedField`: the payload size first, added up by the sizers. */
    method WritePacked(number: nat, st: ScalarType, vs: seq<Value>)
      requires AllInRange(st, vs)
      modifies this
      ensures bytes == old(bytes) + PackedBytes(number, st, vs)
    {
      hide TagBytes, ValuesBytes, Varint;
      ghost var before := bytes;
      WriteTag(number, WIRETYPE_LENGTH_DELIMITED);
      var size := SizeOfValues(st, vs);
      WriteVarint(size);
      assert bytes == before + (TagBytes(number, WIRETYPE_LENGTH_DELIMITED) + Varint(size));
      Associates(before, TagBytes(number, WIRETYPE_LENGTH_DELIMITED) + Varint(size), ValuesBytes(st, vs));
      WriteValues(st, vs);
    }

    /** The first loop of `EncodePackedField`. */
    method SizeOfValues(st: ScalarType, vs: seq<Value>) returns (size: nat)
      requires AllInRange(st, vs)
      ensures size == ValuesSize(st, vs)
    {
      size := 0;
      for i := 0 to |vs|
        invariant size + ValuesSize(st, vs[i..]) == ValuesSize(st, vs)
      {
        assert vs[i..][1..] == vs[i + 1..];
        size := size + ScalarSize(st, vs[i]);
      }
      assert vs[|vs|..] == [];
    }

    /** The second loop. */
    method WriteValues(st: ScalarType, vs: seq<Value>)
      requires AllInRange(st, vs)
      modifies this
      ensures bytes == old(bytes) + ValuesBytes(st, vs)
    {
      hide ScalarBytes;
      ghost var header := bytes;
      for i := 0 to |vs|
        invariant bytes + ValuesBytes(st, vs[i..]) == header + ValuesBytes(st, vs)
      {
        ghost var now := bytes;
        assert vs[i..][1..] == vs[i + 1..];
        WriteScalar(st, vs[i]);
        Associates(now, ScalarBytes(st, vs[i]), ValuesBytes(st, vs[i + 1..]));
      }
      assert vs[|vs|..] == [];
    }
  }
}
