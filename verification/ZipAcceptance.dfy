/** Exactly what the central-directory reader accepts, byte by byte: where every
    field lies, what the extra field must be, and which archives are read. */
module ZipAcceptance {
  import opened Common
  import opened Packing
  import opened ZipDirectory

  // ----- the records byte by byte --------------------------------------------

  // Offsets and widths of the fields of a member record (APPNOTE.TXT section
  // 4.3.12), of the end record (4.3.16) and of an extra-field header (4.5.1).
  const CENTRAL_OFFSETS: seq<nat> := [0, 4, 6, 8, 10, 12, 14, 16, 20, 24, 28, 30, 32, 34, 36, 38, 42]
  const CENTRAL_WIDTHS: seq<nat> := [4, 2, 2, 2, 2, 2, 2, 4, 4, 4, 2, 2, 2, 2, 2, 4, 4]
  const END_OFFSETS: seq<nat> := [0, 4, 6, 8, 10, 12, 16, 20]
  const END_WIDTHS: seq<nat> := [4, 2, 2, 2, 2, 4, 4, 2]

  lemma CentralWidths()
    ensures CENTRAL == CENTRAL_WIDTHS && Size(CENTRAL_WIDTHS) == 46
  {
    CentralSize();
  }

  lemma CentralOffsets()
    ensures Adjoin(CENTRAL_WIDTHS, CENTRAL_OFFSETS) && |CENTRAL_WIDTHS| == 17
  {
  }

  lemma CentralLayout(bytes: seq<byte>)
    requires |bytes| >= 46
    ensures Size(CENTRAL) == 46 && |CENTRAL| == |CENTRAL_OFFSETS| == |CENTRAL_WIDTHS| == 17
    ensures forall k | 0 <= k < 17 :: CENTRAL_OFFSETS[k] + CENTRAL_WIDTHS[k] <= |bytes|
    ensures forall k | 0 <= k < 17 :: Unpack(CENTRAL, bytes)[k] == Field(bytes, CENTRAL_OFFSETS[k], CENTRAL_WIDTHS[k])
  {
    CentralWidths();
    CentralOffsets();
    hide Adjoin, Size, Unpack, Field;
    LaidOut(CENTRAL, CENTRAL_OFFSETS, bytes);
  }

  lemma EndWidths()
    ensures EOCD == END_WIDTHS && Size(END_WIDTHS) == 22
  {
    EocdSize();
  }

  lemma EndOffsets()
    ensures Adjoin(END_WIDTHS, END_OFFSETS) && |END_WIDTHS| == 8
  {
  }

  lemma EndLayout(bytes: seq<byte>)
    requires |bytes| >= 22
    ensures Size(EOCD) == 22 && |EOCD| == |END_OFFSETS| == |END_WIDTHS| == 8
    ensures forall k | 0 <= k < 8 :: END_OFFSETS[k] + END_WIDTHS[k] <= |bytes|
    ensures forall k | 0 <= k < 8 :: Unpack(EOCD, bytes)[k] == Field(bytes, END_OFFSETS[k], END_WIDTHS[k])
  {
    EndWidths();
    EndOffsets();
    hide Adjoin, Size, Unpack, Field;
    LaidOut(EOCD, END_OFFSETS, bytes);
  }

  /** Each field starts where the one before it ends. */
  ghost predicate Adjoin(widths: seq<nat>, offsets: seq<nat>) {
    && |offsets| == |widths| && (widths != [] ==> offsets[0] == 0)
    && forall k | 0 < k < |widths| :: offsets[k] == offsets[k - 1] + widths[k - 1]
  }

  lemma LaidOut(widths: seq<nat>, offsets: seq<nat>, bytes: seq<byte>)
    requires Adjoin(widths, offsets) && Size(widths) <= |bytes|
    ensures forall k | 0 <= k < |widths| :: offsets[k] + widths[k] <= |bytes|
    ensures forall k | 0 <= k < |widths| :: Unpack(widths, bytes)[k] == Field(bytes, offsets[k], widths[k])
  {
    forall k | 0 <= k < |widths|
      ensures offsets[k] + widths[k] <= |bytes| && Unpack(widths, bytes)[k] == Field(bytes, offsets[k], widths[k])
    {
      OffsetIs(widths, offsets, k);
      UnpackIsFields(widths, bytes, k);
    }
  }

  lemma {:induction false} OffsetIs(widths: seq<nat>, offsets: seq<nat>, k: nat)
    requires Adjoin(widths, offsets) && k < |widths|
    ensures offsets[k] == Size(widths[..k])
  {
    if k > 0 {
      OffsetIs(widths, offsets, k - 1);
      SizeStep(widths, k - 1);
    }
  }

  lemma SignatureBytes(bytes: seq<byte>)
    requires |bytes| >= 4
    ensures Field(bytes, 0, 4) == CENTRAL_SIGNATURE <==> bytes[..4] == [0x50, 0x4B, 0x01, 0x02]
    ensures Field(bytes, 0, 4) == EOCD_SIGNATURE <==> bytes[..4] == [0x50, 0x4B, 0x05, 0x06]
  {
    FourBytes(bytes[..4]);
    assert bytes[0..4] == bytes[..4];
  }

  lemma FourBytes(b: seq<byte>)
    requires |b| == 4
    ensures FromLE(b) == (((b[3] as int) * 0x100 + b[2]) * 0x100 + b[1]) * 0x100 + b[0]
  {
    assert b[1..][1..] == b[2..] && b[2..][1..] == b[3..] && b[3..][1..] == [];
    assert FromLE(b[3..]) == b[3] + 0x100 * FromLE([]);
    assert FromLE(b[2..]) == b[2] + 0x100 * FromLE(b[3..]);
    assert FromLE(b[1..]) == b[1] + 0x100 * FromLE(b[2..]);
  }

  lemma TwoBytes(b: seq<byte>)
    requires |b| == 2
    ensures FromLE(b) == (b[1] as int) * 0x100 + b[0]
  {
    assert b[1..][1..] == [];
    assert FromLE(b[1..]) == b[1] + 0x100 * FromLE([]);
  }

  // ----- exactly what the reader accepts -------------------------------------

  function Zip64Bodies(es: seq<Extra>): seq<seq<byte>> {
    if es == [] then []
    else (if es[0].kind == 1 then [es[0].body] else []) + Zip64Bodies(es[1..])
  }

  /** An extra field's records, each written as kind, length and body. */
  ghost predicate IsExtras(extra: seq<byte>, es: seq<Extra>) {
    if es == [] then extra == []
    else
      && |extra| >= 4
      && es[0].kind == Field(extra, 0, 2) && |es[0].body| == Field(extra, 2, 2)
      && 4 + |es[0].body| <= |extra|
      && es[0].body == extra[4..4 + |es[0].body|]
      && IsExtras(extra[4 + |es[0].body|..], es[1..])
  }

  ghost function Bodies(found: Option<seq<byte>>): seq<seq<byte>> {
    match found
    case None => []
    case Some(body) => [body]
  }

  lemma ExtraLayout(extra: seq<byte>)
    requires |extra| >= 4
    ensures Size(EXTRA) == 4 && Unpack(EXTRA, extra) == [Field(extra, 0, 2), Field(extra, 2, 2)]
  {
    ExtraSize();
    assert EXTRA == [2, 2];
    LaidOut(EXTRA, [0, 2], extra);
  }

  /** The scan succeeds exactly when the extra field is a sequence of records of
      which at most one, together with what was found before, is a ZIP64 record. */
  lemma {:induction false} ScanIff(extra: seq<byte>, found: Option<seq<byte>>, result: Option<seq<byte>>)
    ensures FindZip64(extra, found) == Ok(result) <==>
            exists es :: IsExtras(extra, es) && Bodies(result) == Bodies(found) + Zip64Bodies(es)
    decreases |extra|
  {
    if FindZip64(extra, found) == Ok(result) {
      var es := ScanRecords(extra, found, result);
    }
    forall es | IsExtras(extra, es) && Bodies(result) == Bodies(found) + Zip64Bodies(es)
      ensures FindZip64(extra, found) == Ok(result)
    {
      ScanOf(extra, found, result, es);
    }
  }

  lemma {:induction false} ScanRecords(extra: seq<byte>, found: Option<seq<byte>>, result: Option<seq<byte>>) returns (es: seq<Extra>)
    requires FindZip64(extra, found) == Ok(result)
    ensures IsExtras(extra, es) && Bodies(result) == Bodies(found) + Zip64Bodies(es)
    decreases |extra|
  {
    if extra == [] {
      es := [];
    } else {
      ExtraLayout(extra);
      var first := Extra(Field(extra, 0, 2), extra[4..4 + Field(extra, 2, 2)]);
      var rest := ScanRecords(extra[4 + |first.body|..], if first.kind == 1 then Some(first.body) else found, result);
      es := [first] + rest;
      assert es[1..] == rest;
    }
  }

  lemma {:induction false} ScanOf(extra: seq<byte>, found: Option<seq<byte>>, result: Option<seq<byte>>, es: seq<Extra>)
    requires IsExtras(extra, es) && Bodies(result) == Bodies(found) + Zip64Bodies(es)
    ensures FindZip64(extra, found) == Ok(result)
    decreases |extra|
  {
    if es == [] {
      SameBodies(result, found);
    } else {
      ExtraLayout(extra);
      var later := if es[0].kind == 1 then Some(es[0].body) else found;
      ScanOf(extra[4 + |es[0].body|..], later, result, es[1..]);
    }
  }

  lemma SameBodies(a: Option<seq<byte>>, b: Option<seq<byte>>)
    requires Bodies(a) == Bodies(b)
    ensures a == b
  {
    if a.Some? {
      assert Bodies(a)[0] == Bodies(b)[0];
    }
  }

  /** `zip64` holds exactly the needed values, one after the other. */
  lemma {:induction false} ReadWideIff(needs: seq<bool>, widths: seq<nat>, narrow: seq<nat>, zip64: seq<byte>, values: seq<nat>)
    requires |needs| == |widths| == |narrow| == |values|
    ensures ReadWide(needs, widths, narrow, zip64) == Ok(values) <==>
            && zip64 == WideBody(needs, widths, values)
            && forall i | 0 <= i < |needs| :: if needs[i] then values[i] < Pow256(widths[i]) else values[i] == narrow[i]
  {
    if needs != [] {
      var w := widths[0];
      var body := WideBody(needs[1..], widths[1..], values[1..]);
      assert values == [values[0]] + values[1..];
      if !needs[0] {
        ReadWideIff(needs[1..], widths[1..], narrow[1..], zip64, values[1..]);
      } else if |zip64| >= w {
        ReadWideIff(needs[1..], widths[1..], narrow[1..], zip64[w..], values[1..]);
        ToFromLE(zip64[..w]);
        if values[0] < Pow256(w) {
          FromToLE(values[0], w);
        }
        assert zip64 == zip64[..w] + zip64[w..];
        assert (ToLE(values[0], w) + body)[..w] == ToLE(values[0], w) && (ToLE(values[0], w) + body)[w..] == body;
      }
    }
  }

  /** A field is all ones: its value is in the ZIP64 record. */
  predicate AllOnes(value: nat, k: nat) {
    value == if k == 3 then 0xFFFF else 0xFFFF_FFFF
  }

  function WideFields(narrow: seq<nat>): (needs: seq<bool>)
    requires |narrow| == 4
    ensures |needs| == 4 && forall k | 0 <= k < 4 :: needs[k] == AllOnes(narrow[k], k)
  {
    [AllOnes(narrow[0], 0), AllOnes(narrow[1], 1), AllOnes(narrow[2], 2), AllOnes(narrow[3], 3)]
  }

  /** The values of size, compressed size, offset and disk (section 4.5.3): those
      of the header, except that the fields that are all ones are in the one ZIP64
      record, in this order and nothing else. */
  ghost predicate Resolved(narrow: seq<nat>, extra: seq<byte>, values: seq<nat>)
    requires |narrow| == |values| == 4
  {
    if forall k | 0 <= k < 4 :: !AllOnes(narrow[k], k) then values == narrow
    else
      && (forall k | 0 <= k < 4 :: if AllOnes(narrow[k], k) then values[k] < Pow256(if k == 3 then 4 else 8) else values[k] == narrow[k])
      && exists es :: IsExtras(extra, es) && Zip64Bodies(es) == [WideBody(WideFields(narrow), [8, 8, 8, 4], values)]
  }

  lemma ResolveIff(narrow: seq<nat>, extra: seq<byte>, values: seq<nat>)
    requires |narrow| == |values| == 4
    ensures Resolve(narrow, extra) == Ok(values) <==> Resolved(narrow, extra, values)
  {
    NeedsAre(narrow);
    if Any(WideFields(narrow)) {
      var k :| 0 <= k < 4 && WideFields(narrow)[k];
      assert AllOnes(narrow[k], k);
      if Resolve(narrow, extra) == Ok(values) {
        ResolvedIsStored(narrow, extra, values);
      }
      if Resolved(narrow, extra, values) {
        StoredIsResolved(narrow, extra, values);
      }
    } else {
      assert forall k | 0 <= k < 4 :: !WideFields(narrow)[k];
    }
  }

  lemma NeedsAre(narrow: seq<nat>)
    requires |narrow| == 4
    ensures Needs(narrow) == WideFields(narrow) && WIDE_WIDTHS == [8, 8, 8, 4]
  {
  }

  lemma ResolvedIsStored(narrow: seq<nat>, extra: seq<byte>, values: seq<nat>)
    requires |narrow| == |values| == 4 && Any(WideFields(narrow))
    requires Resolve(narrow, extra) == Ok(values) && !(forall k | 0 <= k < 4 :: !AllOnes(narrow[k], k))
    ensures Resolved(narrow, extra, values)
  {
    hide FindZip64, ReadWide, WideBody, IsExtras, Zip64Bodies, WideFields, Needs, Any;
    NeedsAre(narrow);
    var needs := WideFields(narrow);
    var found := FindZip64(extra, None).value;
    var es := ScanRecords(extra, None, found);
    ReadWideIff(needs, WIDE_WIDTHS, narrow, found.value, values);
    WidthOfWide(needs, narrow, values);
    assert [] + Zip64Bodies(es) == Zip64Bodies(es);
  }

  lemma StoredIsResolved(narrow: seq<nat>, extra: seq<byte>, values: seq<nat>)
    requires |narrow| == |values| == 4 && Any(WideFields(narrow))
    requires Resolved(narrow, extra, values) && !(forall k | 0 <= k < 4 :: !AllOnes(narrow[k], k))
    ensures Resolve(narrow, extra) == Ok(values)
  {
    hide FindZip64, ReadWide, WideBody, IsExtras, Zip64Bodies, WideFields, Needs, Any;
    NeedsAre(narrow);
    var needs := WideFields(narrow);
    var body := WideBody(needs, WIDE_WIDTHS, values);
    var es :| IsExtras(extra, es) && Zip64Bodies(es) == [body];
    assert [] + Zip64Bodies(es) == Zip64Bodies(es);
    ScanOf(extra, None, Some(body), es);
    WidthOfWide(needs, narrow, values);
    ReadWideIff(needs, WIDE_WIDTHS, narrow, body, values);
  }

  lemma WidthOfWide(needs: seq<bool>, narrow: seq<nat>, values: seq<nat>)
    requires |needs| == |narrow| == |values| == 4
    ensures (forall k | 0 <= k < 4 :: if needs[k] then values[k] < Pow256(WIDE_WIDTHS[k]) else values[k] == narrow[k]) <==>
            (forall k | 0 <= k < 4 :: if needs[k] then values[k] < Pow256(if k == 3 then 4 else 8) else values[k] == narrow[k])
  {
  }

  /** `bytes` begin with the record of member `m`, `end` bytes long. */
  ghost predicate IsMember(utf8: Utf8, bytes: seq<byte>, seen: set<Name>, m: Member, end: nat) {
    && |bytes| >= 46
    && bytes[..4] == [0x50, 0x4B, 0x01, 0x02]
    && end == 46 + Field(bytes, 28, 2) + Field(bytes, 30, 2) + Field(bytes, 32, 2) <= |bytes|
    && m.flags == Field(bytes, 8, 2) && m.flags % 2 == 0
    && m.compression == Field(bytes, 10, 2) && m.crc32 == Field(bytes, 16, 4)
    && m.name !in seen
    && (var n := 46 + Field(bytes, 28, 2);
        && Spelled(utf8, m.flags, bytes[46..n], m.name)
        && Resolved([Field(bytes, 24, 4), Field(bytes, 20, 4), Field(bytes, 42, 4), Field(bytes, 34, 2)],
                    bytes[n..n + Field(bytes, 30, 2)],
                    [m.size, m.compressedSize, m.localHeaderOffset, 0]))
  }

  /** The fields the reader looks at. */
  lemma HeaderFields(bytes: seq<byte>)
    requires |bytes| >= 46
    ensures Size(CENTRAL) == 46 && |Unpack(CENTRAL, bytes)| == 17
    ensures var f := Unpack(CENTRAL, bytes);
            && f[0] == Field(bytes, 0, 4) && f[3] == Field(bytes, 8, 2) && f[4] == Field(bytes, 10, 2)
            && f[7] == Field(bytes, 16, 4) && f[8] == Field(bytes, 20, 4) && f[9] == Field(bytes, 24, 4)
            && f[10] == Field(bytes, 28, 2) && f[11] == Field(bytes, 30, 2) && f[12] == Field(bytes, 32, 2)
            && f[13] == Field(bytes, 34, 2) && f[16] == Field(bytes, 42, 4)
  {
    CentralLayout(bytes);
    hide Unpack, Field;
  }

  /** A record is read as a member exactly when it is its record. */
  lemma MemberIff(utf8: Utf8, bytes: seq<byte>, seen: set<Name>, m: Member, end: nat)
    ensures ParseMember(utf8, bytes, seen) == Ok((m, end)) <==> IsMember(utf8, bytes, seen, m, end)
  {
    if |bytes| >= 46 {
      HeaderIs(bytes);
      HeaderFields(bytes);
      var f := Unpack(CENTRAL, bytes);
      hide Unpack, Field, Spelled, Resolved, Resolve, DecodeName, ParseHeader, ParseMember;
      if bytes[..4] == [0x50, 0x4B, 0x01, 0x02] && 46 + f[10] + f[11] + f[12] <= |bytes| {
        HeadedMemberIff(utf8, bytes, seen, m, end);
      } else {
        NoHeader(utf8, bytes, seen);
      }
    }
  }

  lemma HeadedMemberIff(utf8: Utf8, bytes: seq<byte>, seen: set<Name>, m: Member, end: nat)
    requires |bytes| >= 46 && bytes[..4] == [0x50, 0x4B, 0x01, 0x02]
    requires 46 + Field(bytes, 28, 2) + Field(bytes, 30, 2) + Field(bytes, 32, 2) <= |bytes|
    ensures ParseMember(utf8, bytes, seen) == Ok((m, end)) <==> IsMember(utf8, bytes, seen, m, end)
  {
    HeaderIs(bytes);
    HeaderFields(bytes);
    var f := Unpack(CENTRAL, bytes);
    hide Unpack, Field, Spelled, Resolved, Resolve, DecodeName, ParseHeader, ParseMember, Size;
    var n := 46 + f[10];
    DecodeIsSpelled(utf8, f[3], bytes[46..n], m.name);
    ResolveIff([f[9], f[8], f[16], f[13]], bytes[n..n + f[11]], [m.size, m.compressedSize, m.localHeaderOffset, 0]);
    ParsedMember(utf8, bytes, seen, f, m, end);
  }

  lemma NoHeader(utf8: Utf8, bytes: seq<byte>, seen: set<Name>)
    requires ParseHeader(bytes).Err?
    ensures ParseMember(utf8, bytes, seen).Err?
  {
  }

  lemma HeaderIs(bytes: seq<byte>)
    requires |bytes| >= 46
    ensures Size(CENTRAL) == 46 && |Unpack(CENTRAL, bytes)| == 17
    ensures var f := Unpack(CENTRAL, bytes);
            var end := 46 + f[10] + f[11] + f[12];
            ParseHeader(bytes) ==
              if bytes[..4] != [0x50, 0x4B, 0x01, 0x02] then Err(BadHeader)
              else if end > |bytes| then Err(TruncatedMember)
              else Ok((f, end))
  {
    HeaderFields(bytes);
    SignatureBytes(bytes);
    hide Unpack, Field;
  }

  lemma ParsedMember(utf8: Utf8, bytes: seq<byte>, seen: set<Name>, f: seq<nat>, m: Member, end: nat)
    requires |f| == 17 && ParseHeader(bytes) == Ok((f, 46 + f[10] + f[11] + f[12]))
    ensures ParseMember(utf8, bytes, seen) == Ok((m, end)) <==>
            && end == 46 + f[10] + f[11] + f[12]
            && DecodeName(utf8, f[3], bytes[46..46 + f[10]]) == Some(m.name) && m.name !in seen
            && m.flags == f[3] && m.flags % 2 == 0 && m.compression == f[4] && m.crc32 == f[7]
            && Resolve([f[9], f[8], f[16], f[13]], bytes[46 + f[10]..46 + f[10] + f[11]]) ==
               Ok([m.size, m.compressedSize, m.localHeaderOffset, 0])
  {
    hide ParseHeader, DecodeName, Resolve;
    var wide := Resolve([f[9], f[8], f[16], f[13]], bytes[46 + f[10]..46 + f[10] + f[11]]);
    if wide.Ok? {
      assert wide.value == [wide.value[0], wide.value[1], wide.value[2], wide.value[3]];
    }
  }

  // ----- the end record ------------------------------------------------------

  predicate EndMark(source: seq<byte>, p: nat) {
    p + 4 <= |source| && source[p..p + 4] == [0x50, 0x4B, 0x05, 0x06]
  }

  /** The last end record of `source` is at `p`, fills the file with its comment,
      and places a directory of `count` members before itself. */
  ghost predicate IsEnd(source: seq<byte>, p: nat, directory: seq<byte>, count: nat) {
    && p + 22 <= |source|
    && EndMark(source, p) && (forall j: nat | p < j :: !EndMark(source, j))
    && Field(source, p + 4, 2) == 0 && Field(source, p + 6, 2) == 0
    && count == Field(source, p + 8, 2) == Field(source, p + 10, 2) && 0 < count < 0xFFFF
    && p + 22 + Field(source, p + 20, 2) == |source|
    && (var size, offset := Field(source, p + 12, 4), Field(source, p + 16, 4);
        && 0 < size <= 4194304 && offset != 0xFFFF_FFFF
        && offset + size <= p
        && directory == source[offset..offset + size])
  }

  lemma EndFieldsAt(source: seq<byte>, from: nat, at: nat)
    requires from + at + 22 <= |source|
    ensures Size(EOCD) == 22
    ensures var e := Unpack(EOCD, source[from..][at..]);
            var p := from + at;
            && |e| == 8 && e[0] == Field(source, p, 4)
            && e[1] == Field(source, p + 4, 2) && e[2] == Field(source, p + 6, 2)
            && e[3] == Field(source, p + 8, 2) && e[4] == Field(source, p + 10, 2)
            && e[5] == Field(source, p + 12, 4) && e[6] == Field(source, p + 16, 4) && e[7] == Field(source, p + 20, 2)
  {
    var record, p := source[from..][at..], from + at;
    assert record == source[p..];
    EndValues(record);
    FieldOfSuffix(source, p, 0, 4);
    FieldOfSuffix(source, p, 4, 2);
    FieldOfSuffix(source, p, 6, 2);
    FieldOfSuffix(source, p, 8, 2);
    FieldOfSuffix(source, p, 10, 2);
    FieldOfSuffix(source, p, 12, 4);
    FieldOfSuffix(source, p, 16, 4);
    FieldOfSuffix(source, p, 20, 2);
    hide Unpack, Field, Size;
  }

  lemma EndValues(record: seq<byte>)
    requires |record| >= 22
    ensures Size(EOCD) == 22
    ensures var e := Unpack(EOCD, record);
            && |e| == 8 && e[0] == Field(record, 0, 4)
            && e[1] == Field(record, 4, 2) && e[2] == Field(record, 6, 2)
            && e[3] == Field(record, 8, 2) && e[4] == Field(record, 10, 2)
            && e[5] == Field(record, 12, 4) && e[6] == Field(record, 16, 4) && e[7] == Field(record, 20, 2)
  {
    EndLayout(record);
    hide Unpack, Field;
  }

  lemma FieldOfSuffix(source: seq<byte>, p: nat, offset: nat, width: nat)
    requires p + offset + width <= |source|
    ensures Field(source[p..], offset, width) == Field(source, p + offset, width)
  {
    assert source[p..][offset..offset + width] == source[p + offset..p + offset + width];
  }

  /** The directory is found exactly where the last end record says. */
  lemma LocateIff(source: seq<byte>, directory: seq<byte>, count: nat)
    ensures Locate(source) == Ok((directory, count)) <==> exists p :: IsEnd(source, p, directory, count)
  {
    if Locate(source) == Ok((directory, count)) {
      LocatedAtEnd(source, directory, count);
    }
    forall p | IsEnd(source, p, directory, count) ensures Locate(source) == Ok((directory, count)) {
      EndIsLocated(source, p, directory, count);
    }
  }

  lemma LocatedAtEnd(source: seq<byte>, directory: seq<byte>, count: nat)
    requires Locate(source) == Ok((directory, count))
    ensures exists p :: IsEnd(source, p, directory, count)
  {
    var from := |source| - Min(|source|, 65535 + 22);
    LocateGives(source, directory, count);
    var tail := source[from..|source|];
    var at := LastSignature(tail, |tail|).value;
    assert tail == source[from..];
    MarksInTail(source, from);
    EndFieldsAt(source, from, at);
    hide Unpack, Field, LastSignature, SignatureAt, EndMark, Locate;
    assert IsEnd(source, from + at, directory, count);
  }

  lemma LocateGives(source: seq<byte>, directory: seq<byte>, count: nat)
    requires Locate(source) == Ok((directory, count))
    ensures Size(EOCD) == 22
    ensures var from := |source| - Min(|source|, 65535 + 22);
            var tail := source[from..|source|];
            && LastSignature(tail, |tail|).Some?
            && var at := LastSignature(tail, |tail|).value;
            && at + 22 <= |tail|
            && var e := Unpack(EOCD, tail[at..]);
            && |e| == 8 && e[1] == e[2] == 0 && e[3] == e[4] == count && 0 < count < 0xFFFF
            && from + at + 22 + e[7] == |source|
            && 0 < e[5] <= 4194304 && e[6] != 0xFFFF_FFFF && e[6] + e[5] <= from + at
            && directory == source[e[6]..e[6] + e[5]]
  {
    EocdSize();
    hide Unpack, LastSignature;
  }

  lemma MarksInTail(source: seq<byte>, from: nat)
    requires from <= |source|
    ensures forall j: nat | from <= j :: EndMark(source, j) <==> SignatureAt(source[from..|source|], j - from)
    ensures forall j: nat :: EndMark(source, j) <==> SignatureAt(source, j)
  {
    forall j: nat | from <= j ensures EndMark(source, j) <==> SignatureAt(source[from..|source|], j - from) {
      if j + 4 <= |source| {
        SubSlice(source, from, |source|, j - from, j - from + 4);
      }
    }
  }

  lemma EndIsLocated(source: seq<byte>, p: nat, directory: seq<byte>, count: nat)
    requires IsEnd(source, p, directory, count)
    ensures Locate(source) == Ok((directory, count))
  {
    var from := |source| - Min(|source|, 65535 + 22);
    FieldBound(source, p + 20);
    LastMark(source, from, p);
    EndFieldsAt(source, from, p - from);
    MarkIsSignature(source, p);
    hide Unpack, Field, LastSignature, EndMark, Locate;
    assert source[from..|source|] == source[from..];
    LocateBy(source, from, p - from, Unpack(EOCD, source[from..][p - from..]));
  }

  lemma LastMark(source: seq<byte>, from: nat, p: nat)
    requires from <= p < |source| && EndMark(source, p) && forall j: nat | p < j :: !EndMark(source, j)
    ensures LastSignature(source[from..|source|], |source| - from) == Some(p - from)
  {
    MarksInTail(source, from);
    hide EndMark, SignatureAt;
    LastInTail(source, from, p);
  }

  lemma LocateBy(source: seq<byte>, from: nat, at: nat, e: seq<nat>)
    requires from == |source| - Min(|source|, 65535 + 22) && from + at + 22 <= |source|
    requires LastSignature(source[from..|source|], |source| - from) == Some(at)
    requires Size(EOCD) == 22 && e == Unpack(EOCD, source[from..|source|][at..]) && |e| == 8
    requires e[0] == EOCD_SIGNATURE && e[1] == e[2] == 0 && e[3] == e[4] && 0 < e[4] < 0xFFFF
    requires from + at + 22 + e[7] == |source|
    requires 0 < e[5] <= 4194304 && e[6] != 0xFFFF_FFFF && e[6] + e[5] <= from + at
    ensures Locate(source) == Ok((source[e[6]..e[6] + e[5]], e[4]))
  {
    hide Unpack, LastSignature;
    assert ReadExactRange(source, from, |source| - 1) == Ok(source[from..|source|]);
  }

  lemma MarkIsSignature(source: seq<byte>, p: nat)
    requires EndMark(source, p)
    ensures Field(source, p, 4) == EOCD_SIGNATURE
  {
    SignatureBytes(source[p..p + 4]);
    assert source[p..p + 4][..4] == source[p..p + 4] == source[p..p + 4][0..4];
  }

  lemma FieldBound(bytes: seq<byte>, offset: nat)
    requires offset + 2 <= |bytes|
    ensures Field(bytes, offset, 2) < 0x1_0000
  {
    Widths();
  }

  // ----- whole archives ------------------------------------------------------

  /** Records that each read as their member, with distinct names, are accepted one
      after the other. */
  lemma {:induction false} TiledDirectoryIsAccepted(utf8: Utf8, records: seq<seq<byte>>, members: seq<Member>, seen: set<Name>)
    requires ReadsAs(utf8, records, members) && DistinctNames(members, seen)
    ensures ParseMembers(utf8, Flatten(records), |records|, seen) == Ok(members)
  {
    hide ParseMember;
    if records != [] {
      var rest := Flatten(records[1..]);
      assert ParseMember(utf8, records[0], {}) == Ok((members[0], |records[0]|));
      MemberExtends(utf8, records[0], rest, members[0], seen);
      assert (records[0] + rest)[|records[0]|..] == rest;
      assert DistinctNames(members[1..], seen + {members[0].name});
      TiledDirectoryIsAccepted(utf8, records[1..], members[1..], seen + {members[0].name});
      assert members == [members[0]] + members[1..];
    }
  }

  lemma MemberExtends(utf8: Utf8, record: seq<byte>, rest: seq<byte>, m: Member, seen: set<Name>)
    requires ParseMember(utf8, record, {}) == Ok((m, |record|)) && m.name !in seen
    ensures ParseMember(utf8, record + rest, seen) == Ok((m, |record|))
  {
    MemberIff(utf8, record, {}, m, |record|);
    MemberIff(utf8, record + rest, seen, m, |record|);
    hide ParseMember;
    IsMemberExtends(utf8, record, rest, m, seen);
  }

  lemma IsMemberExtends(utf8: Utf8, record: seq<byte>, rest: seq<byte>, m: Member, seen: set<Name>)
    requires IsMember(utf8, record, {}, m, |record|) && m.name !in seen
    ensures IsMember(utf8, record + rest, seen, m, |record|)
  {
    SameFields(record, rest);
    hide Field, Spelled, Resolved;
    var all, n := record + rest, 46 + Field(record, 28, 2);
    var x := n + Field(record, 30, 2);
    assert all[..4] == record[..4];
    assert all[46..n] == record[46..n];
    assert all[n..x] == record[n..x];
  }

  lemma SameFields(record: seq<byte>, rest: seq<byte>)
    requires |record| >= 46
    ensures var all := record + rest;
        && Field(all, 8, 2) == Field(record, 8, 2) && Field(all, 10, 2) == Field(record, 10, 2)
        && Field(all, 16, 4) == Field(record, 16, 4) && Field(all, 20, 4) == Field(record, 20, 4)
        && Field(all, 24, 4) == Field(record, 24, 4) && Field(all, 28, 2) == Field(record, 28, 2)
        && Field(all, 30, 2) == Field(record, 30, 2) && Field(all, 32, 2) == Field(record, 32, 2)
        && Field(all, 34, 2) == Field(record, 34, 2) && Field(all, 42, 4) == Field(record, 42, 4)
  {
    SameField(record, rest, 8, 2);
    SameField(record, rest, 10, 2);
    SameField(record, rest, 16, 4);
    SameField(record, rest, 20, 4);
    SameField(record, rest, 24, 4);
    SameField(record, rest, 28, 2);
    SameField(record, rest, 30, 2);
    SameField(record, rest, 32, 2);
    SameField(record, rest, 34, 2);
    SameField(record, rest, 42, 4);
    hide Field;
  }

  lemma SameField(a: seq<byte>, b: seq<byte>, offset: nat, width: nat)
    requires offset + width <= |a|
    ensures Field(a + b, offset, width) == Field(a, offset, width)
  {
    assert (a + b)[offset..offset + width] == a[offset..offset + width];
  }

  /** What the reader returns, for every byte string: it succeeds exactly when the
      last end record places a directory that is the concatenation of as many
      member records as announced, with distinct names; and returns these members. */
  lemma ParseIff(utf8: Utf8, source: seq<byte>, members: seq<Member>)
    ensures Parse(utf8, source) == Ok(members) <==>
            exists p, records ::
              && IsEnd(source, p, Flatten(records), |members|)
              && |records| == |members| && DistinctNames(members, {})
              && forall i | 0 <= i < |records| :: IsMember(utf8, records[i], {}, members[i], |records[i]|)
  {
    hide Locate, ParseMember, IsMember, IsEnd, ParseMembers;
    if Parse(utf8, source) == Ok(members) {
      var (directory, count) := Locate(source).value;
      LocateIff(source, directory, count);
      var p :| IsEnd(source, p, directory, count);
      AcceptedDirectoryIsTiled(utf8, directory, count, {});
      var records := Records(directory, count);
      forall i | 0 <= i < |records| ensures IsMember(utf8, records[i], {}, members[i], |records[i]|) {
        MemberIff(utf8, records[i], {}, members[i], |records[i]|);
      }
    }
    forall p, records |
      && IsEnd(source, p, Flatten(records), |members|)
      && |records| == |members| && DistinctNames(members, {})
      && (forall i | 0 <= i < |records| :: IsMember(utf8, records[i], {}, members[i], |records[i]|))
      ensures Parse(utf8, source) == Ok(members)
    {
      LocateIff(source, Flatten(records), |members|);
      forall i | 0 <= i < |records| ensures ParseMember(utf8, records[i], {}) == Ok((members[i], |records[i]|)) {
        MemberIff(utf8, records[i], {}, members[i], |records[i]|);
      }
      TiledDirectoryIsAccepted(utf8, records, members, {});
    }
  }
}
