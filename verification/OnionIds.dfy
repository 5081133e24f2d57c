/** Version 3 onion service IDs: a public key, two bytes of checksum and a version, in base 32.

    SHA3-256 and the library's base 32 decoder are arbitrary functions; the decoder is only known to follow
    RFC 4648 on whole groups of eight symbols.
 */
module OnionIds {
  import opened Words
  import opened Base32
  import opened Options

  type Digest = s: seq<byte> | |s| == 32 witness seq(32, _ => 0)

  datatype Result = Key(key: seq<byte>) | CorruptInput | InvalidLength | InvalidVersion | InvalidChecksum

  const VERSION: byte := 3

  function Ascii(s: string): (b: seq<byte>)
    requires forall i :: 0 <= i < |s| ==> s[i] < 0x80 as char
  {
    seq(|s|, i requires 0 <= i < |s| => s[i] as byte)
  }

  function CheckSum(sha3: seq<byte> -> Digest, key: seq<byte>): Digest {
    sha3(Ascii(".onion checksum") + key + [VERSION])
  }

  function LowerChar(c: char): char {
    if 'A' <= c <= 'Z' then c + 32 as char else c
  }

  function UpperChar(c: char): char {
    if 'a' <= c <= 'z' then c - 32 as char else c
  }

  function ToLower(s: string): (t: string)
    ensures |t| == |s| && forall i :: 0 <= i < |s| ==> t[i] == LowerChar(s[i])
  {
    seq(|s|, i requires 0 <= i < |s| => LowerChar(s[i]))
  }

  function ToUpper(s: string): (t: string)
    ensures |t| == |s| && forall i :: 0 <= i < |s| ==> t[i] == UpperChar(s[i])
  {
    seq(|s|, i requires 0 <= i < |s| => UpperChar(s[i]))
  }

  /** The 35 bytes behind the ID of a key; a key of another length is cut off or padded with zeros. */
  function IdBytes(sha3: seq<byte> -> Digest, key: seq<byte>): (b: seq<byte>)
    ensures |b| == 35
  {
    var checkSum := CheckSum(sha3, key);
    FirstBytes(key) + [checkSum[0], checkSum[1], VERSION]
  }

  ghost function ServiceId(sha3: seq<byte> -> Digest, key: seq<byte>): string {
    ToLower(Encode(IdBytes(sha3, key)))
  }

  /** The ASCII codes of ".onion checksum". */
  const PREFIX: seq<byte> := [0x2e, 0x6f, 0x6e, 0x69, 0x6f, 0x6e, 0x20, 0x63, 0x68, 0x65, 0x63, 0x6b, 0x73, 0x75, 0x6d]

  lemma CheckSumByPlaces(sha3: seq<byte> -> Digest, key: seq<byte>, x: seq<byte>)
    requires var n := 15 + |key|; |x| == n + 1 && x[..15] == PREFIX && x[15..n] == key && x[n] == 3
    ensures CheckSum(sha3, key) == sha3(x)
    ensures IdBytes(sha3, key) == FirstBytes(key) + sha3(x)[..2] + [3]
    ensures |key| == 32 ==> FirstBytes(key) == key
  {
    assert Ascii(".onion checksum") == PREFIX;
    assert x == PREFIX + key + [3];
    assert |key| == 32 ==> key[..32] == key;
  }

  /** The base 32 form of the key, the first two bytes of the hash of the prefix, the key and the version, and the
      version.  Of a longer key only the first 32 bytes are written, and a shorter one is padded with zeros. */
  method OnionServiceIDFromV3PublicKey(sha3: seq<byte> -> Digest, key: seq<byte>) returns (id: string)
    ensures id == ServiceId(sha3, key)
    ensures |id| == 56 && forall i :: 0 <= i < 56 ==> 'a' <= id[i] <= 'z' || '2' <= id[i] <= '7'
    ensures AreSymbols(ToUpper(id))
    ensures forall x: seq<byte> :: var n := 15 + |key|;
              |x| == n + 1 && x[..15] == PREFIX && x[15..n] == key && x[n] == 3 ==>
                && Decode(ToUpper(id)) == FirstBytes(key) + sha3(x)[..2] + [3]
                && (|key| == 32 ==> Decode(ToUpper(id)) == key + sha3(x)[..2] + [3])
  {
    hide Encode, CheckSum;
    var checkSum := CheckSum(sha3, key);
    var keyBytes := new byte[35](_ => 0);
    forall i | 0 <= i < |key| && i < 35 {
      keyBytes[i] := key[i];
    }
    keyBytes[32] := checkSum[0];
    keyBytes[33] := checkSum[1];
    keyBytes[34] := 3;
    assert keyBytes[..] == IdBytes(sha3, key);
    id := ToLower(Encode(keyBytes[..]));
    DecodeEncode(keyBytes[..]);
    UpperOfLower(Encode(keyBytes[..]));
    LowerCase(Encode(keyBytes[..]));
    forall x: seq<byte> | var n := 15 + |key|; |x| == n + 1 && x[..15] == PREFIX && x[15..n] == key && x[n] == 3
      ensures IdBytes(sha3, key) == FirstBytes(key) + sha3(x)[..2] + [3] && (|key| == 32 ==> FirstBytes(key) == key)
    {
      CheckSumByPlaces(sha3, key, x);
    }
  }

  lemma LowerCase(s: string)
    requires AreSymbols(s)
    ensures forall i :: 0 <= i < |s| ==> 'a' <= ToLower(s)[i] <= 'z' || '2' <= ToLower(s)[i] <= '7'
  {
  }

  /** The library decodes whole groups of symbols as RFC 4648 says. */
  ghost predicate DecodesBase32(decode: string -> Option<seq<byte>>) {
    forall s: string :: |s| % 8 == 0 && AreSymbols(s) ==> decode(s) == Some(Decode(s))
  }

  function PublicKeyFromV3OnionServiceID(sha3: seq<byte> -> Digest, decode: string -> Option<seq<byte>>,
                                         id: string): Result
  {
    var bytes := decode(ToUpper(id));
    if bytes.None? then CorruptInput else CheckedKey(sha3, bytes.value)
  }

  /** The checks on the decoded bytes. */
  function CheckedKey(sha3: seq<byte> -> Digest, bytes: seq<byte>): Result {
    if |bytes| != 35 then InvalidLength
    else if bytes[34] != VERSION then InvalidVersion
    else
      var key := bytes[..32];
      var checkSum := CheckSum(sha3, key);
      if bytes[32] != checkSum[0] || bytes[33] != checkSum[1] then InvalidChecksum else Key(key)
  }

  /** They accept the bytes of a key and nothing else. */
  lemma CheckedExactly(sha3: seq<byte> -> Digest, bytes: seq<byte>, key: seq<byte>)
    ensures CheckedKey(sha3, bytes) == Key(key) <==> |key| == 32 && bytes == IdBytes(sha3, key)
  {
    hide CheckSum;
    if |key| == 32 && bytes == IdBytes(sha3, key) {
      assert bytes[..32] == key;
    }
    if CheckedKey(sha3, bytes) == Key(key) {
      assert bytes == bytes[..32] + [bytes[32], bytes[33], bytes[34]];
      assert key[..32] == key;
    }
  }

  /** The reader's bytes by their places: it accepts the key, the first two bytes of that hash, and the version, and
      names the first place that is wrong. */
  lemma CheckedByPlaces(sha3: seq<byte> -> Digest, bytes: seq<byte>, key: seq<byte>, x: seq<byte>)
    requires |key| == 32 && |x| == 48 && x[..15] == PREFIX && x[15..47] == key && x[47] == 3
    ensures CheckedKey(sha3, bytes) == Key(key) <==> bytes == key + sha3(x)[..2] + [3]
    ensures CheckedKey(sha3, bytes) == InvalidLength <==> |bytes| != 35
    ensures CheckedKey(sha3, bytes) == InvalidVersion <==> |bytes| == 35 && bytes[34] != 3
    ensures |bytes| == 35 && bytes[..32] == key ==>
              (CheckedKey(sha3, bytes) == InvalidChecksum <==> bytes[34] == 3 && bytes[32..34] != sha3(x)[..2])
  {
    CheckedExactly(sha3, bytes, key);
    CheckSumByPlaces(sha3, key, x);
    hide IdBytes, CheckSum;
    if |bytes| == 35 && bytes[..32] == key {
      var d := sha3(x);
      assert bytes[32..34] == [bytes[32], bytes[33]] && d[..2] == [d[0], d[1]];
    }
  }

  /** And of the ID only its upper-case form is decoded. */
  lemma DecodedFirst(sha3: seq<byte> -> Digest, decode: string -> Option<seq<byte>>, id: string)
    ensures PublicKeyFromV3OnionServiceID(sha3, decode, id) == CorruptInput <==> decode(ToUpper(id)) == None
    ensures decode(ToUpper(id)).Some? ==>
              PublicKeyFromV3OnionServiceID(sha3, decode, id) == CheckedKey(sha3, decode(ToUpper(id)).value)
  {
  }

  // ----- both directions

  lemma UpperOfLower(s: string)
    requires AreSymbols(s)
    ensures ToUpper(ToLower(s)) == s
  {
    assert forall i :: 0 <= i < |s| ==> IsSymbol(s[i]);
  }

  /** The ID of a 32-byte key leads back to the key. */
  lemma KeyOfServiceId(sha3: seq<byte> -> Digest, decode: string -> Option<seq<byte>>, key: seq<byte>)
    requires DecodesBase32(decode) && |key| == 32
    ensures |ServiceId(sha3, key)| == 56
    ensures PublicKeyFromV3OnionServiceID(sha3, decode, ServiceId(sha3, key)) == Key(key)
  {
    hide Encode, Decode, CheckedKey, IdBytes, AreSymbols;
    var b := IdBytes(sha3, key);
    DecodeEncode(b);
    UpperOfLower(Encode(b));
    CheckedExactly(sha3, b, key);
  }

  /** A character of an ID in either case. */
  predicate IsIdChar(c: char) {
    'a' <= c <= 'z' || IsSymbol(c)
  }

  /** Every accepted ID of 56 such characters is, but for the case of its letters, the ID of the key it yields. */
  lemma ServiceIdOfKey(sha3: seq<byte> -> Digest, decode: string -> Option<seq<byte>>, id: string)
    requires DecodesBase32(decode)
    requires |id| == 56 && forall i :: 0 <= i < |id| ==> IsIdChar(id[i])
    requires PublicKeyFromV3OnionServiceID(sha3, decode, id).Key?
    ensures var key := PublicKeyFromV3OnionServiceID(sha3, decode, id).key;
            |key| == 32 && ServiceId(sha3, key) == ToLower(id)
  {
    hide Encode, Decode, CheckedKey, IdBytes;
    var s := ToUpper(id);
    assert AreSymbols(s);
    hide AreSymbols;
    EncodeDecode(s);
    CheckedExactly(sha3, Decode(s), CheckedKey(sha3, Decode(s)).key);
    LowerOfUpper(id);
  }

  lemma LowerOfUpper(id: string)
    requires forall i :: 0 <= i < |id| ==> IsIdChar(id[i])
    ensures ToLower(ToUpper(id)) == ToLower(id)
  {
  }

  /** Without upper-case letters it is that ID exactly, so a key has one lower-case ID. */
  lemma LowerCaseId(sha3: seq<byte> -> Digest, decode: string -> Option<seq<byte>>, id: string)
    requires DecodesBase32(decode)
    requires |id| == 56 && forall i :: 0 <= i < |id| ==> 'a' <= id[i] <= 'z' || '2' <= id[i] <= '7'
    ensures forall key :: |key| == 32 ==>
              (PublicKeyFromV3OnionServiceID(sha3, decode, id) == Key(key) <==> id == ServiceId(sha3, key))
  {
    assert ToLower(id) == id;
    hide CheckSum, Encode, Decode, IdBytes;
    forall key | |key| == 32
      ensures PublicKeyFromV3OnionServiceID(sha3, decode, id) == Key(key) <==> id == ServiceId(sha3, key)
    {
      if id == ServiceId(sha3, key) {
        KeyOfServiceId(sha3, decode, key);
      }
      if PublicKeyFromV3OnionServiceID(sha3, decode, id) == Key(key) {
        ServiceIdOfKey(sha3, decode, id);
      }
    }
  }
}
