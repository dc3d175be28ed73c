/** A closed bit stream read back through the decoder's register, last field first. */
module StreamRoundTrip {
  import opened Bits
  import opened Bytes
  import opened BitStream

  /** The reader stands just above the fields that have not been read. */
  ghost predicate StandsAbove(bitD: DStream, fields: seq<Field>)
    reads bitD
  {
    bitD.Valid() && bitD.InRegister(0) && Holds(bitD.Number(), fields) && bitD.Unread() == Width(fields)
  }

  /** The fields that are left after k reads. */
  function Left(fields: seq<Field>, k: nat): seq<Field>
    requires k <= |fields|
  {
    fields[..|fields| - k]
  }

  /** A reload, or none; with one, 57 bits or all that are left are in the register. */
  method MaybeReload(bitD: DStream, reload: bool, ghost fields: seq<Field>)
    requires StandsAbove(bitD, fields)
    modifies bitD
    ensures StandsAbove(bitD, fields)
    ensures reload ==> forall n: nat :: n <= 57 && n <= Width(fields) ==> bitD.InRegister(n)
  {
    hide Holds, Width;
    if reload {
      var status := bitD.Reload();
    }
  }

  /** Reading the width of the last field gives its value and leaves the others. */
  method PopOne(bitD: DStream, width: nat, ghost fields: seq<Field>, ghost f: Field) returns (value: nat)
    requires StandsAbove(bitD, fields + [f]) && width == f.width && bitD.InRegister(width)
    modifies bitD
    ensures StandsAbove(bitD, fields) && value == Low(f.value, f.width)
  {
    hide Holds, Width, Low, Shr;
    PopField(bitD.Number(), fields, f);
    PackPush(fields, f);
    value := bitD.ReadBits(width);
  }

  lemma NothingLeft(fields: seq<Field>)
    ensures Width(Left(fields, |fields|)) == 0
  {
  }

  lemma OneLess(fields: seq<Field>, k: nat)
    requires k < |fields|
    ensures Left(fields, k) == Left(fields, k + 1) + [fields[|fields| - 1 - k]]
    ensures fields[|fields| - 1 - k].width <= Width(Left(fields, k))
  {
    PackPush(Left(fields, k + 1), fields[|fields| - 1 - k]);
  }

  /**
    The bytes of a closed stream and the widths of its fields, last field first, are enough to get
    every pushed value back, in reverse order, whatever reloads are made, as long as each read
    finds its bits in the register; with a reload before every read of at most 57 bits it does.
    BIT_endOfDStream holds before a read, and at the end, exactly when no pushed bit is left.
  */
  method ReadBack(bytes: seq<byte>, widths: seq<nat>, reloads: seq<bool>, ghost fields: seq<Field>)
    returns (ok: bool, values: seq<nat>, ends: seq<bool>)
    requires |bytes| > 0 && bytes[|bytes| - 1] != 0 && LittleEndian(bytes) == Pack(fields + [END_MARK])
    requires |widths| == |fields| && |reloads| == |fields| + 1
    requires forall k :: 0 <= k < |fields| ==> widths[k] == fields[|fields| - 1 - k].width
    ensures ok ==>
      && |values| == |fields| && |ends| == |fields| + 1 && ends[|fields|]
      && (forall k :: 0 <= k < |fields| ==>
        values[k] == Low(fields[|fields| - 1 - k].value, fields[|fields| - 1 - k].width))
      && (forall k :: 0 <= k <= |fields| ==> (ends[k] <==> Width(Left(fields, k)) == 0))
    ensures (forall k :: 0 <= k < |fields| ==> reloads[k] && widths[k] <= 57) ==> ok
  {
    hide Holds, Pack, Width, Low;
    ClosedStream(fields);
    assert Left(fields, 0) == fields;
    NothingLeft(fields);
    var bitD := new DStream(bytes);
    var size := bitD.Init();
    values, ends := [], [];
    for k := 0 to |widths|
      invariant fresh(bitD) && StandsAbove(bitD, Left(fields, k)) && |values| == |ends| == k
      invariant forall i :: 0 <= i < k ==>
        values[i] == Low(fields[|fields| - 1 - i].value, fields[|fields| - 1 - i].width)
      invariant forall i :: 0 <= i < k ==> (ends[i] <==> Width(Left(fields, i)) == 0)
    {
      OneLess(fields, k);
      MaybeReload(bitD, reloads[k], Left(fields, k));
      ends := ends + [bitD.EndOfDStream()];
      if !bitD.InRegister(widths[k]) {
        return false, values, ends;
      }
      var value := PopOne(bitD, widths[k], Left(fields, k + 1), fields[|fields| - 1 - k]);
      values := values + [value];
    }
    MaybeReload(bitD, reloads[|widths|], Left(fields, |widths|));
    ends := ends + [bitD.EndOfDStream()];
    ok := true;
  }
}
