/** Volume identifiers: pkg/util/volid.go.

    Go strings are byte strings; here a `string` is read one byte per character. No
    definition below depends on the range of its characters. */
module VolumeIdCodec {
  import opened Results

  type uint16 = x: int | 0 <= x < 0x1_0000

  const MAX_VOL_ID_LEN := 128
  const KNOWN_FIELD_SIZE := 15

  datatype Identity = Identity(encodingVersion: uint16, ephemeral: bool, volumeName: string)

  /** A Go `uint16(n)` conversion. */
  function ToUint16(n: nat): uint16 {
    n % 0x1_0000
  }

  function HexDigit(d: nat): char
    requires d < 16
  {
    if d < 10 then '0' + d as char else 'a' + (d - 10) as char
  }

  /** `hex.DecodeString` accepts both cases. */
  function HexValue(c: char): Option<nat> {
    if '0' <= c <= '9' then Some((c - '0') as nat)
    else if 'a' <= c <= 'f' then Some((c - 'a') as nat + 10)
    else if 'A' <= c <= 'F' then Some((c - 'A') as nat + 10)
    else None
  }

  /** The two bytes of a big-endian `uint16`, printed by `hex.EncodeToString`. */
  function HexOfBytes(hi: nat, lo: nat): (s: string)
    requires hi < 256 && lo < 256
    ensures |s| == 4
  {
    [HexDigit(hi / 16), HexDigit(hi % 16), HexDigit(lo / 16), HexDigit(lo % 16)]
  }

  function PrintUint16(v: uint16): (s: string)
    ensures |s| == 4
  {
    HexOfBytes(v / 256, v % 256)
  }

  function ParseUint16(s: string): Option<uint16>
    requires |s| == 4
  {
    var a, b, c, d := HexValue(s[0]), HexValue(s[1]), HexValue(s[2]), HexValue(s[3]);
    if a.Some? && b.Some? && c.Some? && d.Some? then
      Some(((a.value * 16 + b.value) * 16 + c.value) * 16 + d.value)
    else None
  }

  lemma HexDigitValue(d: nat)
    requires d < 16
    ensures HexValue(HexDigit(d)) == Some(d)
    ensures HexDigit(d) != '/'
  {
  }

  lemma ParseHexOfBytes(hi: nat, lo: nat)
    requires hi < 256 && lo < 256
    ensures ParseUint16(HexOfBytes(hi, lo)) == Some(hi * 256 + lo)
    ensures '/' !in HexOfBytes(hi, lo)
  {
    var a, b, c, d := hi / 16, hi % 16, lo / 16, lo % 16;
    assert hi == a * 16 + b && lo == c * 16 + d;
    HexDigitValue(a);
    HexDigitValue(b);
    HexDigitValue(c);
    HexDigitValue(d);
  }

  lemma ParsePrintUint16(v: uint16)
    ensures ParseUint16(PrintUint16(v)) == Some(v)
    ensures '/' !in PrintUint16(v)
  {
    ParseHexOfBytes(v / 256, v % 256);
  }

  function FormatBool(b: bool): uint16 {
    if b then 1 else 0
  }

  function ParseBool(v: uint16): Option<bool> {
    if v == 0 then Some(false) else if v == 1 then Some(true) else None
  }

  function Compose(id: Identity): Result<string> {
    if KNOWN_FIELD_SIZE + |id.volumeName| > MAX_VOL_ID_LEN then Err
    else Ok(JoinDashed(PrintUint16(id.encodingVersion), PrintUint16(FormatBool(id.ephemeral)),
                       PrintUint16(ToUint16(|id.volumeName|)), id.volumeName))
  }

  /** `strings.Join` of four parts with "-". */
  function JoinDashed(a: string, b: string, c: string, d: string): string {
    a + "-" + b + "-" + c + "-" + d
  }

  lemma JoinDashedParts(a: string, b: string, c: string, d: string)
    requires |a| == |b| == |c| == 4
    ensures var s := JoinDashed(a, b, c, d);
            && |s| == 15 + |d|
            && s[0..4] == a && s[5..9] == b && s[10..14] == c && s[15..] == d
            && ('/' !in a && '/' !in b && '/' !in c && '/' !in d ==> '/' !in s)
  {
    var s := JoinDashed(a, b, c, d);
    assert s == a + ("-" + b) + ("-" + c) + ("-" + d);
  }

  /** Every slice below is in range for every string, although the length is truncated to 16
      bits first and `15 + volumeNameLength` is computed in 16 bits: Dafny checks both here. */
  function Decompose(s: string): Result<Identity> {
    var bytesToProcess := ToUint16(|s|);
    if bytesToProcess < KNOWN_FIELD_SIZE then Err
    else
      match ParseUint16(s[0..4])
      case None => Err
      case Some(version) =>
        match ParseUint16(s[5..9])
        case None => Err
        case Some(flag) =>
          if ParseBool(flag) == None then Err
          else
            match ParseUint16(s[10..14])
            case None => Err
            case Some(nameLength) =>
              if bytesToProcess - 15 != nameLength then Err
              else
                var end: uint16 := 15 + nameLength;
                Ok(Identity(version, ParseBool(flag).value, s[15..end]))
  }

  /** The four parts of a composed id, each with what it parses to. */
  lemma ComposedParts(id: Identity) returns (a: string, b: string, c: string)
    requires KNOWN_FIELD_SIZE + |id.volumeName| <= MAX_VOL_ID_LEN
    ensures |a| == |b| == |c| == 4
    ensures Compose(id) == Ok(JoinDashed(a, b, c, id.volumeName))
    ensures ParseUint16(a) == Some(id.encodingVersion)
    ensures ParseUint16(b) == Some(FormatBool(id.ephemeral))
    ensures ParseUint16(c) == Some(|id.volumeName|)
    ensures '/' !in a && '/' !in b && '/' !in c
  {
    var flag, length := FormatBool(id.ephemeral), ToUint16(|id.volumeName|);
    assert length == |id.volumeName|;
    a := Printed(id.encodingVersion);
    b := Printed(flag);
    c := Printed(length);
    ComposeJoins(id, a, b, c);
  }

  lemma ComposeJoins(id: Identity, a: string, b: string, c: string)
    requires KNOWN_FIELD_SIZE + |id.volumeName| <= MAX_VOL_ID_LEN
    requires a == PrintUint16(id.encodingVersion) && b == PrintUint16(FormatBool(id.ephemeral))
    requires c == PrintUint16(ToUint16(|id.volumeName|))
    ensures Compose(id) == Ok(JoinDashed(a, b, c, id.volumeName))
  {
  }

  lemma Printed(v: uint16) returns (s: string)
    ensures s == PrintUint16(v) && |s| == 4 && ParseUint16(s) == Some(v) && '/' !in s
  {
    s := PrintUint16(v);
    ParsePrintUint16(v);
  }

  lemma DecomposeParts(a: string, b: string, c: string, d: string, version: uint16, flag: bool)
    requires |a| == |b| == |c| == 4 && |d| < 0x1_0000 - 15
    requires ParseUint16(a) == Some(version) && ParseUint16(b) == Some(FormatBool(flag))
    requires ParseUint16(c) == Some(|d|)
    ensures Decompose(JoinDashed(a, b, c, d)) == Ok(Identity(version, flag, d))
  {
    JoinDashedParts(a, b, c, d);
    var s := JoinDashed(a, b, c, d);
    assert s[15..15 + |d|] == s[15..];
  }

  /** Composing then decomposing returns the identity; composing refuses exactly the names
      that would overflow the 128 bytes of the CSI specification, section "Size Limits". */
  lemma RoundTrip(id: Identity)
    ensures Compose(id).Ok? <==> |id.volumeName| <= 113
    ensures Compose(id).Ok? ==> |Compose(id).value| <= MAX_VOL_ID_LEN
    ensures Compose(id).Ok? ==> Decompose(Compose(id).value) == Ok(id)
  {
    if |id.volumeName| <= 113 {
      var a, b, c := ComposedParts(id);
      JoinDashedParts(a, b, c, id.volumeName);
      DecomposeParts(a, b, c, id.volumeName, id.encodingVersion, id.ephemeral);
    }
  }

  lemma ComposeInjective(a: Identity, b: Identity)
    requires Compose(a).Ok? && Compose(a) == Compose(b)
    ensures a == b
  {
    RoundTrip(a);
    RoundTrip(b);
  }

  lemma ComposeHasNoSlash(id: Identity)
    requires Compose(id).Ok? && '/' !in id.volumeName
    ensures '/' !in Compose(id).value
  {
    var a, b, c := ComposedParts(id);
    JoinDashedParts(a, b, c, id.volumeName);
  }

  /** What acceptance means: the name is everything after the 15 fixed bytes, unless the
      string is longer than a `uint16` can count, when the tail is silently dropped. */
  lemma DecomposedName(s: string)
    requires Decompose(s).Ok?
    ensures Decompose(s).value.volumeName <= s[15..]
    ensures Decompose(s).value.volumeName == s[15..] <==> |s| < 0x1_0000
  {
  }

  /** Composing what was accepted gives back the one canonical spelling, and accepting that
      again changes nothing. Only what was counted as too long cannot be composed. */
  lemma DecomposeNormalises(s: string)
    requires Decompose(s).Ok?
    ensures var again := Compose(Decompose(s).value);
            && (again.Ok? <==> ToUint16(|s|) <= MAX_VOL_ID_LEN)
            && (again.Ok? ==> Decompose(again.value) == Decompose(s))
  {
    RoundTrip(Decompose(s).value);
  }

  // ---------- which strings are composed ones ----------

  predicate LowerHexDigit(c: char) {
    '0' <= c <= '9' || 'a' <= c <= 'f'
  }

  predicate LowerHex(s: string) {
    forall i :: 0 <= i < |s| ==> LowerHexDigit(s[i])
  }

  lemma DigitBack(c: char)
    requires HexValue(c).Some?
    ensures HexValue(c).value < 16
    ensures HexDigit(HexValue(c).value) == c <==> LowerHexDigit(c)
  {
  }

  lemma DigitsApart(a: nat, b: nat, c: nat, d: nat)
    requires a < 16 && b < 16 && c < 16 && d < 16
    ensures var v := ((a * 16 + b) * 16 + c) * 16 + d;
            PrintUint16(v) == [HexDigit(a), HexDigit(b), HexDigit(c), HexDigit(d)]
  {
    var v := ((a * 16 + b) * 16 + c) * 16 + d;
    assert v / 256 == a * 16 + b && v % 256 == c * 16 + d;
  }

  lemma ParsedDigits(s: string) returns (a: nat, b: nat, c: nat, d: nat)
    requires |s| == 4 && ParseUint16(s).Some?
    ensures a < 16 && b < 16 && c < 16 && d < 16
    ensures ParseUint16(s).value == ((a * 16 + b) * 16 + c) * 16 + d
    ensures HexDigit(a) == s[0] <==> LowerHexDigit(s[0])
    ensures HexDigit(b) == s[1] <==> LowerHexDigit(s[1])
    ensures HexDigit(c) == s[2] <==> LowerHexDigit(s[2])
    ensures HexDigit(d) == s[3] <==> LowerHexDigit(s[3])
  {
    DigitBack(s[0]);
    DigitBack(s[1]);
    DigitBack(s[2]);
    DigitBack(s[3]);
    a, b, c, d := HexValue(s[0]).value, HexValue(s[1]).value, HexValue(s[2]).value, HexValue(s[3]).value;
  }

  lemma Reprinted(s: string) returns (t: string)
    requires |s| == 4 && ParseUint16(s).Some?
    ensures t == PrintUint16(ParseUint16(s).value) && |t| == 4
    ensures t[0] == s[0] <==> LowerHexDigit(s[0])
    ensures t[1] == s[1] <==> LowerHexDigit(s[1])
    ensures t[2] == s[2] <==> LowerHexDigit(s[2])
    ensures t[3] == s[3] <==> LowerHexDigit(s[3])
  {
    var a, b, c, d := ParsedDigits(s);
    t := [HexDigit(a), HexDigit(b), HexDigit(c), HexDigit(d)];
    DigitsApart(a, b, c, d);
  }

  lemma SameFourIff(s: string, t: string)
    requires |s| == |t| == 4
    requires forall i :: 0 <= i < 4 ==> (t[i] == s[i] <==> LowerHexDigit(s[i]))
    ensures t == s <==> LowerHex(s)
  {
  }

  /** Printing a field that was read gives it back exactly if it was in lower case. */
  lemma PrintParsed(s: string)
    requires |s| == 4 && ParseUint16(s).Some?
    ensures PrintUint16(ParseUint16(s).value) == s <==> LowerHex(s)
  {
    var t := Reprinted(s);
    SameFourIff(s, t);
  }

  /** What decomposing does not look at: the length limit, the separators, and the case of
      the digits. */
  predicate Canonical(s: string)
    requires KNOWN_FIELD_SIZE <= |s|
  {
    && |s| <= MAX_VOL_ID_LEN
    && s[4] == s[9] == s[14] == '-'
    && LowerHex(s[0..4]) && LowerHex(s[5..9]) && LowerHex(s[10..14])
  }

  lemma JoinedBack(s: string, a: string, b: string, c: string, d: string)
    requires KNOWN_FIELD_SIZE <= |s| && |a| == |b| == |c| == 4 && d == s[15..]
    ensures JoinDashed(a, b, c, d) == s
            <==> s[4] == s[9] == s[14] == '-' && s[0..4] == a && s[5..9] == b && s[10..14] == c
  {
    var t := JoinDashed(a, b, c, d);
    JoinDashedParts(a, b, c, d);
    assert t[4] == t[9] == t[14] == '-';
    if s[4] == s[9] == s[14] == '-' && s[0..4] == a && s[5..9] == b && s[10..14] == c {
      assert s == s[0..4] + [s[4]] + s[5..9] + [s[9]] + s[10..14] + [s[14]] + s[15..];
    }
  }

  lemma AcceptedParts(s: string)
    requires Decompose(s).Ok? && |s| <= MAX_VOL_ID_LEN
    ensures var id := Decompose(s).value;
            && ParseUint16(s[0..4]) == Some(id.encodingVersion)
            && ParseUint16(s[5..9]) == Some(FormatBool(id.ephemeral))
            && ParseUint16(s[10..14]) == Some(ToUint16(|id.volumeName|))
            && id.volumeName == s[15..]
  {
  }

  /** An accepted string composes back to itself exactly if it is canonical. */
  lemma AcceptedComposesBackIff(s: string)
    requires Decompose(s).Ok?
    ensures Compose(Decompose(s).value) == Ok(s) <==> Canonical(s)
  {
    var id := Decompose(s).value;
    if |s| <= MAX_VOL_ID_LEN {
      AcceptedParts(s);
      ReprintedIff(s, id);
    } else {
      NotSoLong(s, id);
    }
  }

  lemma NotSoLong(s: string, id: Identity)
    requires |s| > MAX_VOL_ID_LEN
    ensures Compose(id) != Ok(s)
  {
    RoundTrip(id);
  }

  lemma ReprintedIff(s: string, id: Identity)
    requires KNOWN_FIELD_SIZE <= |s| <= MAX_VOL_ID_LEN && id.volumeName == s[15..]
    requires ParseUint16(s[0..4]) == Some(id.encodingVersion)
    requires ParseUint16(s[5..9]) == Some(FormatBool(id.ephemeral))
    requires ParseUint16(s[10..14]) == Some(ToUint16(|id.volumeName|))
    ensures Compose(id) == Ok(s) <==> Canonical(s)
  {
    PrintParsed(s[0..4]);
    PrintParsed(s[5..9]);
    PrintParsed(s[10..14]);
    JoinedBack(s, PrintUint16(id.encodingVersion), PrintUint16(FormatBool(id.ephemeral)),
               PrintUint16(ToUint16(|id.volumeName|)), id.volumeName);
  }

  ghost predicate WasComposed(s: string) {
    exists id :: Compose(id) == Ok(s)
  }

  /** Decomposing accepts more than was ever composed. It tells composed strings from others
      exactly by what it does not look at. */
  lemma ComposedIff(s: string)
    ensures WasComposed(s) <==> Decompose(s).Ok? && Canonical(s)
  {
    if id :| Compose(id) == Ok(s) {
      RoundTrip(id);
      AcceptedComposesBackIff(s);
    } else if Decompose(s).Ok? {
      AcceptedComposesBackIff(s);
    }
  }

  /** An instance that was not. */
  lemma DecomposeAcceptsOtherSpellings()
    ensures Decompose("0001/0000/0001/v") == Ok(Identity(1, false, "v"))
    ensures !WasComposed("0001/0000/0001/v")
  {
    var t := "0001/0000/0001/v";
    assert t[0..4] == "0001" && t[5..9] == "0000" && t[10..14] == "0001" && t[15..16] == "v";
    assert PrintUint16(0) == "0000" && PrintUint16(1) == "0001";
    ParsePrintUint16(0);
    ParsePrintUint16(1);
    ComposedIff(t);
    assert t[4] == '/';
  }

  class CSIIdentifier {
    var encodingVersion: uint16
    var ephemeral: bool
    var volumeName: string

    constructor (id: Identity)
      ensures Value() == id
    {
      encodingVersion, ephemeral, volumeName := id.encodingVersion, id.ephemeral, id.volumeName;
    }

    function Value(): Identity
      reads this
    {
      Identity(encodingVersion, ephemeral, volumeName)
    }

    /** One two-byte buffer is reused for the three numeric fields. */
    method ComposeCSIID() returns (r: Result<string>)
      ensures r == Compose(Value())
    {
      var buf := new nat[2];
      if KNOWN_FIELD_SIZE + |volumeName| > MAX_VOL_ID_LEN {
        return Err;
      }
      PutUint16(buf, encodingVersion);
      var version := HexOfBytes(buf[0], buf[1]);
      PutUint16(buf, FormatBool(ephemeral));
      var isEphemeral := HexOfBytes(buf[0], buf[1]);
      PutUint16(buf, ToUint16(|volumeName|));
      var length := HexOfBytes(buf[0], buf[1]);
      return Ok(JoinDashed(version, isEphemeral, length, volumeName));
    }

    static method PutUint16(buf: array<nat>, v: uint16)
      requires buf.Length == 2
      modifies buf
      ensures buf[0] == v / 256 && buf[1] == v % 256
    {
      buf[0], buf[1] := v / 256, v % 256;
    }

    /** Fills the receiver field by field, so a refused string may already have changed the
        version and the flag; the name changes only on success. */
    method DecomposeCSIID(s: string) returns (ok: bool)
      modifies this
      ensures ok <==> Decompose(s).Ok?
      ensures ok ==> Value() == Decompose(s).value
      ensures !ok ==> volumeName == old(volumeName)
      ensures !ok && ToUint16(|s|) < KNOWN_FIELD_SIZE ==> Value() == old(Value())
      // what was read before the failure stays
      ensures KNOWN_FIELD_SIZE <= ToUint16(|s|) ==>
        && encodingVersion == (if ParseUint16(s[0..4]).Some? then ParseUint16(s[0..4]).value else old(encodingVersion))
        && ephemeral == (if ParseUint16(s[0..4]).Some? && ParseUint16(s[5..9]).Some? && ParseUint16(s[5..9]).value < 2
                         then ParseUint16(s[5..9]).value == 1 else old(ephemeral))
    {
      var bytesToProcess := ToUint16(|s|);
      if bytesToProcess < KNOWN_FIELD_SIZE {
        return false;
      }
      var buf16 := ParseUint16(s[0..4]);
      if buf16.None? {
        return false;
      }
      encodingVersion := buf16.value;
      bytesToProcess := bytesToProcess - 5;

      buf16 := ParseUint16(s[5..9]);
      if buf16.None? || ParseBool(buf16.value).None? {
        return false;
      }
      ephemeral := ParseBool(buf16.value).value;
      bytesToProcess := bytesToProcess - 5;

      buf16 := ParseUint16(s[10..14]);
      if buf16.None? {
        return false;
      }
      bytesToProcess := bytesToProcess - 5;
      if bytesToProcess != buf16.value {
        return false;
      }
      volumeName := s[15..15 + buf16.value];
      return true;
    }
  }
}
