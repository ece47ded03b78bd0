/** The ZIP central-directory reader of the TensorRT fetcher, and the writer it
    inverts (PKWARE APPNOTE.TXT sections 4.3.12, 4.3.16 and 4.5.3). */
module ZipDirectory {
  import opened Common
  import opened Packing

  // Field widths of the three record headers, `<4s4H2IH`, `<4s6H3I5H2I` and
  // `<HH`, and their signatures as little-endian integers.
  const EOCD: seq<nat> := I(1) + H(4) + I(2) + H(1)
  const CENTRAL: seq<nat> := I(1) + H(6) + I(3) + H(5) + I(2)
  const EXTRA: seq<nat> := H(2)
  const EOCD_SIGNATURE := 0x06054B50
  const CENTRAL_SIGNATURE := 0x02014B50
  const SIGNATURE_BYTES: seq<byte> := [0x50, 0x4B, 0x05, 0x06]
  const MAX_CENTRAL_DIRECTORY_BYTES := 4 * 1024 * 1024

  lemma ExtraSize()
    ensures Size(EXTRA) == 4
  {
    SizeUniform(H(2), 2);
  }

  lemma EocdSize()
    ensures Size(EOCD) == 22 && |EOCD| == 8
  {
    SizeUniform(I(1), 4);
    SizeUniform(H(4), 2);
    SizeUniform(I(2), 4);
    SizeUniform(H(1), 2);
    SizeAppend(I(1), H(4));
    SizeAppend(I(1) + H(4), I(2));
    SizeAppend(I(1) + H(4) + I(2), H(1));
  }

  lemma CentralSize()
    ensures Size(CENTRAL) == 46 && |CENTRAL| == 17
  {
    SizeUniform(I(1), 4);
    SizeUniform(H(6), 2);
    SizeUniform(I(3), 4);
    SizeUniform(H(5), 2);
    SizeUniform(I(2), 4);
    SizeAppend(I(1), H(6));
    SizeAppend(I(1) + H(6), I(3));
    SizeAppend(I(1) + H(6) + I(3), H(5));
    SizeAppend(I(1) + H(6) + I(3) + H(5), I(2));
  }

  datatype Name = Name(text: string)

  /** The UTF-8 decoder, a parameter of the model. */
  type Utf8 = seq<byte> -> Option<Name>

  datatype Error =
    | BadRange | NoEndRecord | MultiDisk | MemberCount | TrailingData | NeedsZip64
    | DirectoryBound | DirectoryOverlap | TruncatedDirectory | BadHeader | TruncatedMember
    | BadName | Encrypted(name: Name) | DuplicateMember(name: Name)
    | TruncatedExtra | MalformedExtra | DuplicateZip64 | MissingZip64
    | TruncatedZip64 | UnexpectedZip64 | OtherDisk(name: Name) | ExtraData

  datatype Member = Member(
    name: Name, flags: nat, compression: nat, crc32: nat,
    compressedSize: nat, size: nat, localHeaderOffset: nat)

  // ----- reading a byte range ----------------------------------------------

  function ReadExactRange(source: seq<byte>, start: int, end: int): Result<seq<byte>, Error> {
    if start < 0 || end < start || end >= |source| then Err(BadRange)
    else Ok(source[start..end + 1])
  }

  predicate SignatureAt(s: seq<byte>, i: nat) {
    i + 4 <= |s| && s[i..i + 4] == SIGNATURE_BYTES
  }

  /** The last end-record signature that starts before `limit`. */
  function LastSignature(s: seq<byte>, limit: nat): (found: Option<nat>)
    ensures found.Some? ==> found.value < limit && SignatureAt(s, found.value)
    ensures forall j: nat | j < limit && (found.None? || j > found.value) :: !SignatureAt(s, j)
  {
    if limit == 0 then None
    else if SignatureAt(s, limit - 1) then Some(limit - 1)
    else LastSignature(s, limit - 1)
  }

  // ----- ZIP64 extended information ----------------------------------------

  const SENTINELS: seq<nat> := [0xFFFF_FFFF, 0xFFFF_FFFF, 0xFFFF_FFFF, 0xFFFF]
  const WIDE_WIDTHS: seq<nat> := [8, 8, 8, 4]

  /** Which of size, compressed size, offset and disk hold their sentinel. */
  function Needs(values: seq<nat>): (needs: seq<bool>)
    requires |values| == 4
    ensures |needs| == 4
  {
    seq(4, i requires 0 <= i < 4 => values[i] == SENTINELS[i])
  }

  predicate Any(needs: seq<bool>) {
    exists i | 0 <= i < |needs| :: needs[i]
  }

  function FindZip64(extra: seq<byte>, found: Option<seq<byte>>): Result<Option<seq<byte>>, Error>
    decreases |extra|
  {
    ExtraSize();
    if extra == [] then Ok(found)
    else if |extra| < 4 then Err(TruncatedExtra)
    else
      var header := Unpack(EXTRA, extra);
      var end := 4 + header[1];
      if end > |extra| then Err(MalformedExtra)
      else if header[0] != 1 then FindZip64(extra[end..], found)
      else if found.Some? then Err(DuplicateZip64)
      else FindZip64(extra[end..], Some(extra[4..end]))
  }

  /** Replaces the needed values, in order, by the ones stored in `zip64`. */
  function ReadWide(needs: seq<bool>, widths: seq<nat>, values: seq<nat>, zip64: seq<byte>): (r: Result<seq<nat>, Error>)
    requires |needs| == |widths| == |values|
    ensures r.Ok? ==> |r.value| == |values|
  {
    if needs == [] then
      if zip64 == [] then Ok([]) else Err(UnexpectedZip64)
    else if !needs[0] then
      var rest :- ReadWide(needs[1..], widths[1..], values[1..], zip64);
      Ok([values[0]] + rest)
    else if |zip64| < widths[0] then Err(TruncatedZip64)
    else
      var rest :- ReadWide(needs[1..], widths[1..], values[1..], zip64[widths[0]..]);
      Ok([FromLE(zip64[..widths[0]])] + rest)
  }

  function Resolve(values: seq<nat>, extra: seq<byte>): (r: Result<seq<nat>, Error>)
    requires |values| == 4
    ensures r.Ok? ==> |r.value| == 4
  {
    if !Any(Needs(values)) then Ok(values)
    else
      var zip64 :- FindZip64(extra, None);
      if zip64.None? then Err(MissingZip64)
      else ReadWide(Needs(values), WIDE_WIDTHS, values, zip64.value)
  }

  method ResolveZip64Fields(original: seq<nat>, extra: seq<byte>) returns (r: Result<seq<nat>, Error>)
    requires |original| == 4
    ensures r == Resolve(original, extra)
  {
    var needs := Needs(original);
    if !Any(needs) {
      return Ok(original);
    }
    var zip64 :- ScanExtra(extra);
    if zip64.None? {
      return Err(MissingZip64);
    }
    r := ReadWideInPlace(needs, original, zip64.value);
  }

  method ScanExtra(extra: seq<byte>) returns (r: Result<Option<seq<byte>>, Error>)
    ensures r == FindZip64(extra, None)
  {
    ExtraSize();
    var offset: nat, zip64: Option<seq<byte>> := 0, None;
    while offset < |extra|
      invariant offset <= |extra|
      invariant FindZip64(extra[offset..], zip64) == FindZip64(extra, None)
    {
      ghost var rest := extra[offset..];
      if offset + 4 > |extra| {
        return Err(TruncatedExtra);
      }
      var header := Unpack(EXTRA, extra[offset..]);
      offset := offset + 4;
      var end := offset + header[1];
      if end > |extra| {
        return Err(MalformedExtra);
      }
      assert rest[4 + header[1]..] == extra[end..];
      assert rest[4..4 + header[1]] == extra[offset..end];
      if header[0] == 1 {
        if zip64.Some? {
          return Err(DuplicateZip64);
        }
        zip64 := Some(extra[offset..end]);
      }
      offset := end;
    }
    assert extra[offset..] == [];
    return Ok(zip64);
  }

  method ReadWideInPlace(needs: seq<bool>, original: seq<nat>, zip64: seq<byte>) returns (r: Result<seq<nat>, Error>)
    requires |needs| == |original| == 4
    ensures r == ReadWide(needs, WIDE_WIDTHS, original, zip64)
  {
    var values: seq<nat>, cursor: nat := original, 0;
    assert needs[0..] == needs && WIDE_WIDTHS[0..] == WIDE_WIDTHS && original[0..] == original && zip64[0..] == zip64;
    PrependNothing(ReadWide(needs, WIDE_WIDTHS, original, zip64));
    for index := 0 to 4
      invariant |values| == 4 && cursor <= |zip64|
      invariant values[index..] == original[index..]
      invariant ReadWide(needs, WIDE_WIDTHS, original, zip64) ==
                Prepend(values[..index], ReadWide(needs[index..], WIDE_WIDTHS[index..], original[index..], zip64[cursor..]))
    {
      WideStep(needs, WIDE_WIDTHS, original, zip64, index, cursor, values[..index]);
      if needs[index] {
        var width := if index == 3 then 4 else 8;
        if cursor + width > |zip64| {
          return Err(TruncatedZip64);
        }
        values := values[index := FromLE(zip64[cursor..cursor + width])];
        cursor := cursor + width;
      }
      assert values[..index + 1] == values[..index] + [values[index]];
    }
    assert values[..4] == values;
    assert values + [] == values;
    if cursor != |zip64| {
      return Err(UnexpectedZip64);
    }
    return Ok(values);
  }

  function Prepend(front: seq<nat>, r: Result<seq<nat>, Error>): Result<seq<nat>, Error> {
    match r
    case Ok(values) => Ok(front + values)
    case Err(e) => Err(e)
  }

  lemma PrependNothing(r: Result<seq<nat>, Error>)
    ensures Prepend([], r) == r
  {
    if r.Ok? {
      assert [] + r.value == r.value;
    }
  }

  /** Reading the values from position `index` on, one value at a time. */
  lemma WideStep(needs: seq<bool>, widths: seq<nat>, values: seq<nat>, zip64: seq<byte>, index: nat, cursor: nat, front: seq<nat>)
    requires index < |needs| == |widths| == |values| && cursor <= |zip64|
    ensures var here := ReadWide(needs[index..], widths[index..], values[index..], zip64[cursor..]);
            var next := cursor + widths[index];
            if !needs[index] then
              Prepend(front, here) == Prepend(front + [values[index]],
                ReadWide(needs[index + 1..], widths[index + 1..], values[index + 1..], zip64[cursor..]))
            else if next > |zip64| then here == Err(TruncatedZip64)
            else
              Prepend(front, here) == Prepend(front + [FromLE(zip64[cursor..next])],
                ReadWide(needs[index + 1..], widths[index + 1..], values[index + 1..], zip64[next..]))
  {
    assert needs[index..][1..] == needs[index + 1..];
    assert widths[index..][1..] == widths[index + 1..];
    assert values[index..][1..] == values[index + 1..];
    var next := cursor + widths[index];
    if needs[index] && next <= |zip64| {
      assert zip64[cursor..][widths[index]..] == zip64[next..];
      assert zip64[cursor..][..widths[index]] == zip64[cursor..next];
      var tail := ReadWide(needs[index + 1..], widths[index + 1..], values[index + 1..], zip64[next..]);
      if tail.Ok? {
        assert front + ([FromLE(zip64[cursor..next])] + tail.value) == front + [FromLE(zip64[cursor..next])] + tail.value;
      }
    } else if !needs[index] {
      var tail := ReadWide(needs[index + 1..], widths[index + 1..], values[index + 1..], zip64[cursor..]);
      if tail.Ok? {
        assert front + ([values[index]] + tail.value) == front + [values[index]] + tail.value;
      }
    }
  }

  // ----- central directory -------------------------------------------------

  /** Names are UTF-8 when bit 11 of the flags is set, ASCII otherwise. The UTF-8
      decoder is a parameter. */
  function DecodeName(utf8: Utf8, flags: nat, bytes: seq<byte>): Option<Name> {
    if flags / 0x800 % 2 == 1 then utf8(bytes)
    else if forall i | 0 <= i < |bytes| :: bytes[i] < 0x80 then
      Some(Name(seq(|bytes|, i requires 0 <= i < |bytes| => bytes[i] as char)))
    else None
  }

  /** An ASCII text as the writer stores it. */
  predicate IsAscii(text: string) {
    forall i | 0 <= i < |text| :: text[i] as int < 0x80
  }

  function EncodeAscii(text: string): seq<byte>
    requires IsAscii(text)
  {
    seq(|text|, i requires 0 <= i < |text| => text[i] as int)
  }

  /** `bytes` spell `name`: as UTF-8 if bit 11 of the flags is set, otherwise as
      the characters of an ASCII text. */
  ghost predicate Spelled(utf8: Utf8, flags: nat, bytes: seq<byte>, name: Name) {
    if flags / 2048 % 2 == 1 then utf8(bytes) == Some(name)
    else IsAscii(name.text) && bytes == EncodeAscii(name.text)
  }

  lemma AsciiDecodes(utf8: Utf8, flags: nat, text: string)
    requires flags / 2048 % 2 == 0 && IsAscii(text)
    ensures DecodeName(utf8, flags, EncodeAscii(text)) == Some(Name(text))
  {
    var bytes := EncodeAscii(text);
    assert seq(|bytes|, i requires 0 <= i < |bytes| => bytes[i] as char) == text;
  }

  /** Decoding finds the name that was spelled, and fails if there is none, as for
      a byte of 0x80 and above in an ASCII name. */
  lemma DecodeIsSpelled(utf8: Utf8, flags: nat, bytes: seq<byte>, name: Name)
    ensures DecodeName(utf8, flags, bytes) == Some(name) <==> Spelled(utf8, flags, bytes, name)
    ensures flags / 2048 % 2 == 0 && (exists i | 0 <= i < |bytes| :: bytes[i] >= 0x80) ==> DecodeName(utf8, flags, bytes) == None
  {
    if flags / 2048 % 2 == 0 {
      if DecodeName(utf8, flags, bytes) == Some(name) {
        assert EncodeAscii(name.text) == bytes;
      }
      if IsAscii(name.text) {
        AsciiDecodes(utf8, flags, name.text);
      }
    }
  }

  /** The fixed header at the front of `bytes`, and the length of its record. */
  function ParseHeader(bytes: seq<byte>): (r: Result<(seq<nat>, nat), Error>)
    ensures r.Ok? ==> |r.value.0| == 17 && 46 <= r.value.1 <= |bytes|
    ensures r.Ok? ==> r.value.1 == 46 + r.value.0[10] + r.value.0[11] + r.value.0[12]
  {
    CentralSize();
    if |bytes| < 46 then Err(TruncatedDirectory)
    else
      var f := Unpack(CENTRAL, bytes);
      var end := 46 + f[10] + f[11] + f[12];
      if f[0] != CENTRAL_SIGNATURE then Err(BadHeader)
      else if end > |bytes| then Err(TruncatedMember)
      else Ok((f, end))
  }

  /** One member record at the front of `bytes`, and its length. */
  function ParseMember(utf8: Utf8, bytes: seq<byte>, seen: set<Name>): (r: Result<(Member, nat), Error>)
    ensures r.Ok? ==> 46 <= r.value.1 <= |bytes|
  {
    var header :- ParseHeader(bytes);
    var (f, end) := header;
    match DecodeName(utf8, f[3], bytes[46..46 + f[10]])
    case None => Err(BadName)
    case Some(name) =>
      if f[3] % 2 == 1 then Err(Encrypted(name))
      else if name in seen then Err(DuplicateMember(name))
      else
        var wide :- Resolve([f[9], f[8], f[16], f[13]], bytes[46 + f[10]..46 + f[10] + f[11]]);
        if wide[3] != 0 then Err(OtherDisk(name))
        else Ok((Member(name, f[3], f[4], f[7], wide[1], wide[0], wide[2]), end))
  }

  function ParseMembers(utf8: Utf8, bytes: seq<byte>, count: nat, seen: set<Name>): Result<seq<Member>, Error> {
    if count == 0 then
      if bytes == [] then Ok([]) else Err(ExtraData)
    else
      var first :- ParseMember(utf8, bytes, seen);
      var rest :- ParseMembers(utf8, bytes[first.1..], count - 1, seen + {first.0.name});
      Ok([first.0] + rest)
  }

  /** The end record: where the directory is and how many members it has. */
  function Locate(source: seq<byte>): Result<(seq<byte>, nat), Error> {
    EocdSize();
    var tailSize := Min(|source|, 65535 + 22);
    var tailOffset := |source| - tailSize;
    var tail :- ReadExactRange(source, tailOffset, |source| - 1);
    var at := LastSignature(tail, |tail|);
    if at.None? || at.value + 22 > |tail| then Err(NoEndRecord)
    else
      var e := Unpack(EOCD, tail[at.value..]);
      if e[0] != EOCD_SIGNATURE || e[1] != 0 || e[2] != 0 then Err(MultiDisk)
      else if e[3] != e[4] || e[4] == 0 then Err(MemberCount)
      else if at.value + 22 + e[7] != |tail| then Err(TrailingData)
      else if e[4] == 0xFFFF || e[5] == 0xFFFF_FFFF || e[6] == 0xFFFF_FFFF then Err(NeedsZip64)
      else if e[5] <= 0 || e[5] > MAX_CENTRAL_DIRECTORY_BYTES then Err(DirectoryBound)
      else if e[6] + e[5] > tailOffset + at.value then Err(DirectoryOverlap)
      else
        var payload :- ReadExactRange(source, e[6], e[6] + e[5] - 1);
        Ok((payload, e[4]))
  }

  function Parse(utf8: Utf8, source: seq<byte>): Result<seq<Member>, Error> {
    var located :- Locate(source);
    ParseMembers(utf8, located.0, located.1, {})
  }

  function ByName(members: seq<Member>): map<Name, Member> {
    if members == [] then map[]
    else
      var last := |members| - 1;
      ByName(members[..last])[members[last].name := members[last]]
  }

  ghost function Continue(done: seq<Member>, r: Result<seq<Member>, Error>): Result<seq<Member>, Error> {
    match r
    case Ok(members) => Ok(done + members)
    case Err(e) => Err(e)
  }

  method ParseCentralDirectory(utf8: Utf8, source: seq<byte>) returns (r: Result<map<Name, Member>, Error>)
    ensures r == match Parse(utf8, source)
                 case Ok(members) => Ok(ByName(members))
                 case Err(e) => Err(e)
  {
    hide ParseMember, Locate;
    var located :- Locate(source);
    var (payload, totalEntries) := located;
    var result: map<Name, Member>, offset: nat := map[], 0;
    ghost var done: seq<Member> := [];
    assert payload[0..] == payload && result.Keys == {};
    ContinueNothing(ParseMembers(utf8, payload, totalEntries, {}));
    for i := 0 to totalEntries
      invariant offset <= |payload|
      invariant result == ByName(done)
      invariant ParseMembers(utf8, payload, totalEntries, {}) ==
                Continue(done, ParseMembers(utf8, payload[offset..], totalEntries - i, result.Keys))
    {
      MembersStep(utf8, payload, offset, totalEntries - i, result.Keys, done);
      var member :- ParseMember(utf8, payload[offset..], result.Keys);
      ByNameAppend(done, member.0);
      result := result[member.0.name := member.0];
      done := done + [member.0];
      offset := offset + member.1;
    }
    if offset != |payload| {
      return Err(ExtraData);
    }
    assert done + [] == done;
    return Ok(result);
  }

  lemma ByNameAppend(done: seq<Member>, member: Member)
    ensures ByName(done + [member]) == ByName(done)[member.name := member]
    ensures ByName(done + [member]).Keys == ByName(done).Keys + {member.name}
  {
    assert (done + [member])[..|done|] == done;
  }

  lemma MembersStep(utf8: Utf8, payload: seq<byte>, offset: nat, count: nat, seen: set<Name>, done: seq<Member>)
    requires offset <= |payload| && count > 0
    ensures match ParseMember(utf8, payload[offset..], seen)
            case Err(e) => ParseMembers(utf8, payload[offset..], count, seen) == Err(e)
            case Ok(first) =>
              Continue(done, ParseMembers(utf8, payload[offset..], count, seen)) ==
              Continue(done + [first.0], ParseMembers(utf8, payload[offset + first.1..], count - 1, seen + {first.0.name}))
  {
    hide ParseMember;
    var parsed := ParseMember(utf8, payload[offset..], seen);
    if parsed.Ok? {
      var (member, length) := parsed.value;
      assert payload[offset..][length..] == payload[offset + length..];
      ContinueOne(done, member, ParseMembers(utf8, payload[offset + length..], count - 1, seen + {member.name}));
    }
  }

  lemma ContinueNothing(r: Result<seq<Member>, Error>)
    ensures Continue([], r) == r
  {
    if r.Ok? {
      assert [] + r.value == r.value;
    }
  }

  lemma ContinueOne(done: seq<Member>, member: Member, r: Result<seq<Member>, Error>)
    ensures r.Ok? ==> Continue(done, Ok([member] + r.value)) == Continue(done + [member], r)
  {
    if r.Ok? {
      assert done + ([member] + r.value) == done + [member] + r.value;
    }
  }

  // ----- what an accepted directory looks like ------------------------------

  /** The byte strings the parser cuts the directory into. */
  ghost function Records(bytes: seq<byte>, count: nat): seq<seq<byte>> {
    if count == 0 || ParseHeader(bytes).Err? then []
    else
      var end := ParseHeader(bytes).value.1;
      [bytes[..end]] + Records(bytes[end..], count - 1)
  }

  lemma HeaderPrefix(bytes: seq<byte>)
    requires ParseHeader(bytes).Ok?
    ensures var end := ParseHeader(bytes).value.1; ParseHeader(bytes[..end]) == ParseHeader(bytes)
  {
    CentralSize();
    UnpackPrefix(CENTRAL, bytes, ParseHeader(bytes).value.1);
  }

  lemma MemberPrefix(utf8: Utf8, bytes: seq<byte>, seen: set<Name>)
    requires ParseMember(utf8, bytes, seen).Ok?
    ensures var (member, end) := ParseMember(utf8, bytes, seen).value;
            && ParseHeader(bytes).Ok? && ParseHeader(bytes).value.1 == end
            && member.name !in seen
            && ParseMember(utf8, bytes[..end], {}) == Ok((member, end))
  {
    hide ParseHeader, DecodeName, Resolve;
    HeaderPrefix(bytes);
    var (f, end) := ParseHeader(bytes).value;
    assert bytes[..end][46..46 + f[10]] == bytes[46..46 + f[10]];
    assert bytes[..end][46 + f[10]..46 + f[10] + f[11]] == bytes[46 + f[10]..46 + f[10] + f[11]];
  }

  ghost predicate ReadsAs(utf8: Utf8, records: seq<seq<byte>>, members: seq<Member>) {
    && |records| == |members|
    && forall i | 0 <= i < |records| :: ParseMember(utf8, records[i], {}) == Ok((members[i], |records[i]|))
  }

  ghost predicate DistinctNames(members: seq<Member>, seen: set<Name>) {
    && (forall i | 0 <= i < |members| :: members[i].name !in seen)
    && (forall i, j | 0 <= i < j < |members| :: members[i].name != members[j].name)
  }

  lemma {:induction false} MembersAreDistinct(utf8: Utf8, bytes: seq<byte>, count: nat, seen: set<Name>)
    requires ParseMembers(utf8, bytes, count, seen).Ok?
    ensures DistinctNames(ParseMembers(utf8, bytes, count, seen).value, seen)
  {
    hide ParseMember, ParseHeader;
    if count > 0 {
      hide DistinctNames;
      var (member, end) := ParseMember(utf8, bytes, seen).value;
      MemberPrefix(utf8, bytes, seen);
      MembersAreDistinct(utf8, bytes[end..], count - 1, seen + {member.name});
      DistinctCons(member, ParseMembers(utf8, bytes[end..], count - 1, seen + {member.name}).value, seen);
    }
  }

  lemma DistinctCons(member: Member, rest: seq<Member>, seen: set<Name>)
    requires member.name !in seen && DistinctNames(rest, seen + {member.name})
    ensures DistinctNames([member] + rest, seen)
  {
    var all := [member] + rest;
    forall i, j | 0 <= i < j < |all|
      ensures all[i].name != all[j].name
    {
      assert all[j] == rest[j - 1];
    }
  }

  /** An accepted directory is tiled exactly by `count` member records, with no
      gap, overlap or trailing byte; each record alone reads as its member, and
      the names are distinct. */
  lemma {:induction false} AcceptedDirectoryIsTiled(utf8: Utf8, bytes: seq<byte>, count: nat, seen: set<Name>)
    requires ParseMembers(utf8, bytes, count, seen).Ok?
    ensures |Records(bytes, count)| == count && Flatten(Records(bytes, count)) == bytes
    ensures ReadsAs(utf8, Records(bytes, count), ParseMembers(utf8, bytes, count, seen).value)
    ensures DistinctNames(ParseMembers(utf8, bytes, count, seen).value, seen)
  {
    hide ParseMember, ParseHeader;
    MembersAreDistinct(utf8, bytes, count, seen);
    if count > 0 {
      MemberPrefix(utf8, bytes, seen);
      var (member, end) := ParseMember(utf8, bytes, seen).value;
      var tail := bytes[end..];
      AcceptedDirectoryIsTiled(utf8, tail, count - 1, seen + {member.name});
      assert bytes == bytes[..end] + tail;
      ReadsCons(utf8, bytes[..end], Records(tail, count - 1), member,
                ParseMembers(utf8, tail, count - 1, seen + {member.name}).value);
      assert ([bytes[..end]] + Records(tail, count - 1))[1..] == Records(tail, count - 1);
    }
  }

  lemma ReadsCons(utf8: Utf8, record: seq<byte>, records: seq<seq<byte>>, member: Member, members: seq<Member>)
    requires ReadsAs(utf8, records, members) && ParseMember(utf8, record, {}) == Ok((member, |record|))
    ensures ReadsAs(utf8, [record] + records, [member] + members)
  {
  }

  // ----- the writer --------------------------------------------------------

  datatype Extra = Extra(kind: nat, body: seq<byte>)

  /** One member to be written. `wide` says which of size, compressed size,
      offset and disk go into the ZIP64 record; without any, `loose` stands for
      the whole extra field. */
  datatype Entry = Entry(
    madeBy: nat, needed: nat, flags: nat, compression: nat, time: nat, date: nat, crc32: nat,
    size: nat, compressedSize: nat, localHeaderOffset: nat,
    wide: seq<bool>, internal: nat, external: nat,
    name: seq<byte>, comment: seq<byte>,
    before: seq<Extra>, after: seq<Extra>, loose: seq<byte>)

  function PrintExtra(e: Extra): seq<byte> {
    Pack(EXTRA, [e.kind, |e.body|]) + e.body
  }

  function PrintExtras(es: seq<Extra>): seq<byte> {
    if es == [] then [] else PrintExtra(es[0]) + PrintExtras(es[1..])
  }

  function WideBody(wide: seq<bool>, widths: seq<nat>, values: seq<nat>): seq<byte>
    requires |wide| == |widths| == |values|
  {
    if wide == [] then []
    else (if wide[0] then ToLE(values[0], widths[0]) else []) + WideBody(wide[1..], widths[1..], values[1..])
  }

  function Values(e: Entry): seq<nat> {
    [e.size, e.compressedSize, e.localHeaderOffset, 0]
  }

  function Narrow(e: Entry): seq<nat>
    requires |e.wide| == 4
  {
    seq(4, i requires 0 <= i < 4 => if e.wide[i] then SENTINELS[i] else Values(e)[i])
  }

  function ExtraBytes(e: Entry): seq<byte>
    requires |e.wide| == 4
  {
    if !Any(e.wide) then e.loose
    else PrintExtras(e.before) + (PrintExtra(Extra(1, WideBody(e.wide, WIDE_WIDTHS, Values(e)))) + PrintExtras(e.after))
  }

  function Fields(e: Entry): (fields: seq<nat>)
    requires |e.wide| == 4
    ensures |fields| == 17
  {
    var n := Narrow(e);
    [CENTRAL_SIGNATURE, e.madeBy, e.needed, e.flags, e.compression, e.time, e.date, e.crc32, n[1], n[0],
     |e.name|, |ExtraBytes(e)|, |e.comment|, n[3], e.internal, e.external, n[2]]
  }

  function PrintEntry(e: Entry): seq<byte>
    requires |e.wide| == 4
  {
    CentralSize();
    Pack(CENTRAL, Fields(e)) + (e.name + (ExtraBytes(e) + e.comment))
  }

  ghost predicate OtherExtras(es: seq<Extra>) {
    forall i | 0 <= i < |es| :: es[i].kind != 1 && Fit(EXTRA, [es[i].kind, |es[i].body|])
  }

  /** Every field fits its width, 64-bit values included; a value that does not
      fit 32 bits beside the sentinel is wide; the member is not encrypted. */
  ghost predicate Writable(e: Entry) {
    && |e.wide| == 4
    && Fit(CENTRAL, Fields(e))
    && (forall i | 0 <= i < 4 :: Values(e)[i] < Pow256(WIDE_WIDTHS[i]))
    && (forall i | 0 <= i < 4 :: !e.wide[i] ==> Values(e)[i] < SENTINELS[i])
    && OtherExtras(e.before) && OtherExtras(e.after)
    && e.flags % 2 == 0
  }

  function MemberOf(e: Entry, name: Name): Member {
    Member(name, e.flags, e.compression, e.crc32, e.compressedSize, e.size, e.localHeaderOffset)
  }

  // ----- parsing undoes printing -------------------------------------------

  lemma FindPrinted(e: Extra, rest: seq<byte>, found: Option<seq<byte>>)
    requires Fit(EXTRA, [e.kind, |e.body|])
    ensures FindZip64(PrintExtra(e) + rest, found) ==
            if e.kind != 1 then FindZip64(rest, found)
            else if found.Some? then Err(DuplicateZip64)
            else FindZip64(rest, Some(e.body))
  {
    hide Pack, Unpack;
    ExtraSize();
    var bytes := PrintExtra(e) + rest;
    var header := Pack(EXTRA, [e.kind, |e.body|]);
    assert bytes == header + (e.body + rest);
    UnpackPack(EXTRA, [e.kind, |e.body|], e.body + rest);
    var end := 4 + |e.body|;
    assert bytes[4..end] == e.body;
    assert bytes[end..] == rest;
  }

  lemma {:induction false} FindSkips(es: seq<Extra>, rest: seq<byte>, found: Option<seq<byte>>)
    requires OtherExtras(es)
    ensures FindZip64(PrintExtras(es) + rest, found) == FindZip64(rest, found)
  {
    hide FindZip64, PrintExtra;
    if es == [] {
      assert PrintExtras(es) + rest == rest;
    } else {
      assert PrintExtras(es) + rest == PrintExtra(es[0]) + (PrintExtras(es[1..]) + rest);
      FindPrinted(es[0], PrintExtras(es[1..]) + rest, found);
      FindSkips(es[1..], rest, found);
    }
  }

  lemma {:induction false} WideRoundTrip(wide: seq<bool>, widths: seq<nat>, narrow: seq<nat>, values: seq<nat>)
    requires |wide| == |widths| == |narrow| == |values|
    requires forall i | 0 <= i < |wide| :: values[i] < Pow256(widths[i]) && (!wide[i] ==> narrow[i] == values[i])
    ensures ReadWide(wide, widths, narrow, WideBody(wide, widths, values)) == Ok(values)
  {
    if wide != [] {
      WideRoundTrip(wide[1..], widths[1..], narrow[1..], values[1..]);
      var rest := WideBody(wide[1..], widths[1..], values[1..]);
      var body := WideBody(wide, widths, values);
      assert values == [values[0]] + values[1..];
      if wide[0] {
        FromToLE(values[0], widths[0]);
        assert body[..widths[0]] == ToLE(values[0], widths[0]);
        assert body[widths[0]..] == rest;
      } else {
        assert body == rest;
      }
    }
  }

  /** ZIP64 resolution gives the entry its 64-bit values back, whatever other
      records surround the ZIP64 one. */
  lemma ResolveRoundTrip(e: Entry)
    requires Writable(e)
    ensures Resolve(Narrow(e), ExtraBytes(e)) == Ok(Values(e))
  {
    var narrow := Narrow(e);
    assert Needs(narrow) == e.wide;
    if Any(e.wide) {
      var body := WideBody(e.wide, WIDE_WIDTHS, Values(e));
      var zip64, after := Extra(1, body), PrintExtras(e.after);
      FindSkips(e.before, PrintExtra(zip64) + after, None);
      BodyFits(e);
      FindPrinted(zip64, after, None);
      assert after + [] == after;
      FindSkips(e.after, [], Some(body));
      WideRoundTrip(e.wide, WIDE_WIDTHS, narrow, Values(e));
    } else {
      assert narrow == Values(e);
    }
  }

  lemma {:induction false} WideBodyLength(wide: seq<bool>, widths: seq<nat>, values: seq<nat>)
    requires |wide| == |widths| == |values| && forall i | 0 <= i < |widths| :: widths[i] <= 8
    ensures |WideBody(wide, widths, values)| <= 8 * |wide|
  {
    if wide != [] {
      WideBodyLength(wide[1..], widths[1..], values[1..]);
    }
  }

  lemma BodyFits(e: Entry)
    requires |e.wide| == 4
    ensures Fit(EXTRA, [1, |WideBody(e.wide, WIDE_WIDTHS, Values(e))|])
  {
    WideBodyLength(e.wide, WIDE_WIDTHS, Values(e));
    Widths();
  }

  lemma EntryParts(e: Entry, rest: seq<byte>)
    requires |e.wide| == 4
    ensures var header, bytes, n := Pack(CENTRAL, Fields(e)), PrintEntry(e) + rest, 46 + |e.name|;
            && |header| == 46
            && |PrintEntry(e)| == n + |ExtraBytes(e)| + |e.comment|
            && bytes == header + (e.name + (ExtraBytes(e) + e.comment) + rest)
            && bytes[46..n] == e.name
            && bytes[n..n + |ExtraBytes(e)|] == ExtraBytes(e)
  {
    hide Fields, ExtraBytes, Pack;
    CentralSize();
    var extra, header := ExtraBytes(e), Pack(CENTRAL, Fields(e));
    var bytes, body := PrintEntry(e) + rest, e.name + (extra + e.comment) + rest;
    assert bytes == header + body;
    var n := |e.name|;
    assert body[0..n] == e.name && body[n..n + |extra|] == extra;
    assert bytes[46..46 + n] == body[0..n];
    assert bytes[46 + n..46 + n + |extra|] == body[n..n + |extra|];
  }

  lemma HeaderRoundTrip(e: Entry, rest: seq<byte>)
    requires Writable(e)
    ensures ParseHeader(PrintEntry(e) + rest) == Ok((Fields(e), |PrintEntry(e)|))
  {
    hide PrintEntry, ExtraBytes, Narrow, Pack, Unpack;
    CentralSize();
    EntryParts(e, rest);
    UnpackPack(CENTRAL, Fields(e), e.name + (ExtraBytes(e) + e.comment) + rest);
  }

  lemma EntryRoundTrip(utf8: Utf8, e: Entry, name: Name, rest: seq<byte>, seen: set<Name>)
    requires Writable(e) && Spelled(utf8, e.flags, e.name, name) && name !in seen
    ensures ParseMember(utf8, PrintEntry(e) + rest, seen) == Ok((MemberOf(e, name), |PrintEntry(e)|))
  {
    DecodeIsSpelled(utf8, e.flags, e.name, name);
    hide ParseHeader, DecodeName, Resolve, ExtraBytes, PrintEntry;
    HeaderRoundTrip(e, rest);
    EntryParts(e, rest);
    var f := Fields(e);
    assert [f[9], f[8], f[16], f[13]] == Narrow(e);
    ResolveRoundTrip(e);
  }

  function PrintEntries(es: seq<Entry>): seq<byte>
    requires forall i | 0 <= i < |es| :: |es[i].wide| == 4
  {
    if es == [] then [] else PrintEntry(es[0]) + PrintEntries(es[1..])
  }

  /** Each entry is writable and spells its name, and the names differ from
      each other and from those already `seen`. */
  ghost predicate Named(utf8: Utf8, es: seq<Entry>, names: seq<Name>, seen: set<Name>) {
    && |names| == |es|
    && (forall i | 0 <= i < |es| :: Writable(es[i]) && Spelled(utf8, es[i].flags, es[i].name, names[i]))
    && (forall i | 0 <= i < |es| :: names[i] !in seen)
    && (forall i, j | 0 <= i < j < |es| :: names[i] != names[j])
  }

  function MembersOf(es: seq<Entry>, names: seq<Name>): seq<Member>
    requires |names| == |es|
  {
    seq(|es|, i requires 0 <= i < |es| => MemberOf(es[i], names[i]))
  }

  lemma {:induction false} EntriesRoundTrip(utf8: Utf8, es: seq<Entry>, names: seq<Name>, seen: set<Name>)
    requires Named(utf8, es, names, seen)
    ensures ParseMembers(utf8, PrintEntries(es), |es|, seen) == Ok(MembersOf(es, names))
  {
    hide ParseMember, PrintEntry, Spelled, Fields, Fit, ExtraBytes, OtherExtras;
    if es == [] {
      assert MembersOf(es, names) == [];
    } else {
      var rest := PrintEntries(es[1..]);
      EntryRoundTrip(utf8, es[0], names[0], rest, seen);
      assert (PrintEntry(es[0]) + rest)[|PrintEntry(es[0])|..] == rest;
      NamedTail(utf8, es, names, seen);
      EntriesRoundTrip(utf8, es[1..], names[1..], seen + {names[0]});
      assert MembersOf(es, names) == [MemberOf(es[0], names[0])] + MembersOf(es[1..], names[1..]);
    }
  }

  lemma NamedTail(utf8: Utf8, es: seq<Entry>, names: seq<Name>, seen: set<Name>)
    requires Named(utf8, es, names, seen) && es != []
    ensures Named(utf8, es[1..], names[1..], seen + {names[0]})
  {
    forall i | 0 <= i < |es| - 1
      ensures names[1..][i] !in seen + {names[0]}
    {
      assert names[1..][i] == names[i + 1];
    }
  }

  /** A whole archive: member data, the directory, anything in between, the end
      record and its comment. */
  datatype Archive = Archive(data: seq<byte>, entries: seq<Entry>, gap: seq<byte>, comment: seq<byte>)

  ghost predicate Sizable(a: Archive) {
    && (forall i | 0 <= i < |a.entries| :: |a.entries[i].wide| == 4)
    && 0 < |a.entries| < 0xFFFF
    && |a.data| < 0xFFFF_FFFF
    && 0 < |PrintEntries(a.entries)| <= MAX_CENTRAL_DIRECTORY_BYTES
    && |a.comment| < 0x1_0000
  }

  function EndFields(a: Archive): (fields: seq<nat>)
    requires forall i | 0 <= i < |a.entries| :: |a.entries[i].wide| == 4
    ensures |fields| == 8
  {
    [EOCD_SIGNATURE, 0, 0, |a.entries|, |a.entries|, |PrintEntries(a.entries)|, |a.data|, |a.comment|]
  }

  function EndRecordAt(a: Archive): nat
    requires forall i | 0 <= i < |a.entries| :: |a.entries[i].wide| == 4
  {
    |a.data| + |PrintEntries(a.entries)| + |a.gap|
  }

  function PrintArchive(a: Archive): seq<byte>
    requires forall i | 0 <= i < |a.entries| :: |a.entries[i].wide| == 4
  {
    EocdSize();
    a.data + PrintEntries(a.entries) + a.gap + (Pack(EOCD, EndFields(a)) + a.comment)
  }

  lemma EndFieldsFit(a: Archive)
    requires Sizable(a)
    ensures Fit(EOCD, EndFields(a))
  {
    Widths();
    EocdSize();
  }

  lemma {:induction false} LastSignatureIs(s: seq<byte>, limit: nat, at: nat)
    requires at < limit && SignatureAt(s, at) && forall j: nat | j > at :: !SignatureAt(s, j)
    ensures LastSignature(s, limit) == Some(at)
  {
    if limit - 1 > at {
      LastSignatureIs(s, limit - 1, at);
    }
  }

  /** The reader finds the directory of a printed archive, provided the last
      end-record signature is the one that was written. */
  lemma LocateRoundTrip(a: Archive)
    requires Sizable(a)
    requires forall j: nat | j > EndRecordAt(a) :: !SignatureAt(PrintArchive(a), j)
    ensures Locate(PrintArchive(a)) == Ok((PrintEntries(a.entries), |a.entries|))
  {
    hide PrintEntries, LastSignature, SignatureAt, Pack, Unpack;
    EocdSize();
    EndFieldsFit(a);
    ArchiveParts(a);
    var source, p := PrintArchive(a), EndRecordAt(a);
    var tailOffset := |source| - Min(|source|, 65535 + 22);
    LastInTail(source, tailOffset, p);
    assert source[tailOffset..|source|][p - tailOffset..] == source[p..];
    UnpackPack(EOCD, EndFields(a), a.comment);
  }

  lemma ArchiveParts(a: Archive)
    requires Sizable(a)
    ensures var source, p := PrintArchive(a), EndRecordAt(a);
            && |source| == p + 22 + |a.comment|
            && source[p..] == Pack(EOCD, EndFields(a)) + a.comment
            && source[|a.data|..|a.data| + |PrintEntries(a.entries)|] == PrintEntries(a.entries)
            && SignatureAt(source, p)
  {
    hide PrintEntries, Pack;
    EocdSize();
    EndSignature(a);
    var source, p := PrintArchive(a), EndRecordAt(a);
    var trailer := Pack(EOCD, EndFields(a)) + a.comment;
    assert source[p..] == trailer;
    assert source[p..p + 4] == trailer[..4];
  }

  lemma LastInTail(source: seq<byte>, from: nat, at: nat)
    requires from <= at < |source| && SignatureAt(source, at)
    requires forall j: nat | j > at :: !SignatureAt(source, j)
    ensures LastSignature(source[from..|source|], |source| - from) == Some(at - from)
  {
    var tail := source[from..|source|];
    forall j: nat | j + 4 <= |tail|
      ensures SignatureAt(tail, j) == SignatureAt(source, from + j)
    {
      SubSlice(source, from, |source|, j, j + 4);
    }
    LastSignatureIs(tail, |tail|, at - from);
  }

  lemma EndSignature(a: Archive)
    requires forall i | 0 <= i < |a.entries| :: |a.entries[i].wide| == 4
    ensures |Pack(EOCD, EndFields(a))| == 22 && (Pack(EOCD, EndFields(a)) + a.comment)[..4] == SIGNATURE_BYTES
  {
    EocdSize();
    var v := EOCD_SIGNATURE;
    assert EOCD[0] == 4;
    assert v % 0x100 == 0x50 && v / 0x100 == 0x06054B;
    assert 0x06054B % 0x100 == 0x4B && 0x06054B / 0x100 == 0x0605;
    assert ToLE(0x06, 1) == [0x06] + ToLE(0, 0);
    assert ToLE(0x0605, 2) == [0x05] + ToLE(0x06, 1);
    assert ToLE(0x06054B, 3) == [0x4B] + ToLE(0x0605, 2);
    assert ToLE(v, 4) == [0x50] + ToLE(0x06054B, 3);
    assert Pack(EOCD, EndFields(a))[..4] == ToLE(v, 4);
  }

  /** Parsing undoes printing: every writable archive reads back as exactly its
      members, with their 64-bit sizes and offsets. */
  lemma ArchiveRoundTrip(utf8: Utf8, a: Archive, names: seq<Name>)
    requires Sizable(a) && Named(utf8, a.entries, names, {})
    requires forall j: nat | j > EndRecordAt(a) :: !SignatureAt(PrintArchive(a), j)
    ensures Parse(utf8, PrintArchive(a)) == Ok(MembersOf(a.entries, names))
  {
    LocateRoundTrip(a);
    EntriesRoundTrip(utf8, a.entries, names, {});
  }
}
