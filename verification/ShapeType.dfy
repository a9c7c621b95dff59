/** The generated class ShapeType: its fields, its CDR code and its size functions. */
module ShapeTypes {
  import opened Outcomes
  import opened Bytes
  import opened CdrWire
  import opened CdrStream
  import opened ShapeLaws

  // The stream's alignment helper: octets to skip so that an item of 4 is aligned.
  function Alignment(current: nat): nat {
    AlignUp(current, 0) - current
  }

  /** Octets of the key: the colour alone, as a big-endian CDR string from offset 0. */
  function KeyOctets(c: Color): (bs: seq<byte>)
    ensures |bs| == |c| + 5
  {
    StringOctets(BigEndian, c)
  }

  /** Octets that the key of an n-octet colour takes from offset `off`. */
  function KeySize(n: nat, off: nat): (size: nat) {
    AlignUp(off, 0) + n + 5 - off
  }

  class ShapeType {
    var color: seq<byte>
    var x: int32
    var y: int32
    var shapesize: int32

    constructor ()
      ensures Value() == Sample([], 0, 0, 0)
    {
      color, x, y, shapesize := [], 0, 0, 0;
    }

    ghost function Value(): Sample
      reads this
    {
      Sample(color, x, y, shapesize)
    }

    /** The colour can travel as a CDR string. */
    ghost predicate Sendable()
      reads this
    {
      0 !in color && |color| + 1 < TWO_TO_THE_32
    }

    ghost function Sent(): (s: Shape)
      requires Sendable()
      reads this
      ensures AsSample(s) == Value()
    {
      Shape(color, x, y, shapesize)
    }

    method Serialize(scdr: Cdr) returns (status: Status)
      requires scdr.Valid() && Sendable()
      modifies scdr`position, scdr.buffer
      ensures scdr.Valid()
      ensures (status, scdr.Contents()) == PutShape(old(scdr.Contents()), Sent())
      ensures scdr.buffer[scdr.limit..] == old(scdr.buffer[scdr.limit..])
    {
      status := scdr.PutString(color);
      if status.IsFailure() { return; }
      status := scdr.PutI32(x);
      if status.IsFailure() { return; }
      status := scdr.PutI32(y);
      if status.IsFailure() { return; }
      status := scdr.PutI32(shapesize);
    }

    method Deserialize(dcdr: Cdr) returns (status: Status)
      requires dcdr.Valid()
      modifies this, dcdr`position
      ensures dcdr.Valid()
      ensures (status, Value(), dcdr.position) == GetShape(old(dcdr.Contents()), old(Value()))
    {
      var c, i;
      status, c := dcdr.GetString();
      if status.IsFailure() { return; }
      color := c;
      status, i := dcdr.GetI32();
      if status.IsFailure() { return; }
      x := i;
      status, i := dcdr.GetI32();
      if status.IsFailure() { return; }
      y := i;
      status, i := dcdr.GetI32();
      if status.IsFailure() { return; }
      shapesize := i;
    }

    method SerializeKey(scdr: Cdr) returns (status: Status)
      requires scdr.Valid() && Sendable()
      modifies scdr`position, scdr.buffer
      ensures scdr.Valid()
      ensures match PutString(old(scdr.Contents()), color)
              case Some(st) => status == Done && scdr.Contents() == st
              case None => status == NotEnoughMemory && scdr.Contents() == old(scdr.Contents())
    {
      status := scdr.PutString(color);
    }

    /** Steps over the four fields as the generated code does. */
    static method GetCdrSerializedSize(data: ShapeType, initialAlignment: nat) returns (size: nat)
      ensures size == CdrSize(|data.color|, initialAlignment)
    {
      var current := initialAlignment;
      current := current + 4 + Alignment(current) + |data.color| + 1;
      current := current + 4 + Alignment(current);
      current := current + 4 + Alignment(current);
      current := current + 4 + Alignment(current);
      size := current - initialAlignment;
      SteppedSize(|data.color|, initialAlignment);
    }

    /** The size function with the longest colour of the IDL in place of the data's own. */
    static method GetMaxCdrSerializedSize(initialAlignment: nat) returns (size: nat)
      ensures size == CdrSize(COLOR_MAX_LENGTH, initialAlignment)
      ensures forall n: nat :: n <= COLOR_MAX_LENGTH ==> CdrSize(n, initialAlignment) <= size
    {
      var current := initialAlignment;
      current := current + 4 + Alignment(current) + COLOR_MAX_LENGTH + 1;
      current := current + 4 + Alignment(current);
      current := current + 4 + Alignment(current);
      current := current + 4 + Alignment(current);
      size := current - initialAlignment;
      SteppedSize(COLOR_MAX_LENGTH, initialAlignment);
      forall n: nat | n <= COLOR_MAX_LENGTH
        ensures CdrSize(n, initialAlignment) <= CdrSize(COLOR_MAX_LENGTH, initialAlignment)
      {
        CdrSizeMonotone(n, COLOR_MAX_LENGTH, initialAlignment);
      }
    }

    /** Unlike the other two, this one returns the final offset, not the difference: it is the
        size of the longest key exactly when it starts at 0. */
    static method GetKeyMaxCdrSerializedSize(initialAlignment: nat) returns (end: nat)
      ensures end == initialAlignment + KeySize(COLOR_MAX_LENGTH, initialAlignment)
      ensures end == KeySize(COLOR_MAX_LENGTH, initialAlignment) <==> initialAlignment == 0
      ensures initialAlignment == 0 ==>
                end == 69 && forall c: Color :: |KeyOctets(c)| <= end <==> |c| <= COLOR_MAX_LENGTH
    {
      end := initialAlignment;
      end := end + 4 + Alignment(end) + COLOR_MAX_LENGTH + 1;
    }
  }

  /** The key size is what writing a colour takes: it succeeds exactly if there is that much room,
      from every offset, and then advances by it. */
  lemma KeySizeExact(st: Stream, c: Color)
    requires st.Valid()
    ensures var size := KeySize(|c|, st.pos - st.origin);
            && (PutString(st, c).Some? <==> st.pos + size <= st.limit)
            && (PutString(st, c).Some? ==> PutString(st, c).value.pos == st.pos + size)
  {
  }

  lemma StepOver(p: nat, b: nat)
    requires b == AlignUp(p, 0)
    ensures p + 4 + Alignment(p) == b + 4 && AlignUp(b + 4, 0) == b + 4
  {
    AlignedStays(b, 0);
    AlignedStays(b + 4, 0);
  }

  lemma SteppedSize(n: nat, off: nat)
    ensures var p1 := off + 4 + Alignment(off) + n + 1;
            var p2 := p1 + 4 + Alignment(p1);
            var p3 := p2 + 4 + Alignment(p2);
            var p4 := p3 + 4 + Alignment(p3);
            p4 - off == CdrSize(n, off)
  {
    var p1 := off + 4 + Alignment(off) + n + 1;
    var b := XAt(off, 0, n);
    StepOver(p1, b);
    StepOver(b + 4, b + 4);
    StepOver(b + 8, b + 8);
  }
}
