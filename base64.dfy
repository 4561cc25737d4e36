/**
 * Base64 as defined in section 4 of RFC 4648 ("Base 64 Encoding", the standard
 * alphabet of Table 1 with '=' padding), and the way Python's `base64.b64decode`
 * with its default `validate=False` applies it to a `str`.
 */
module Base64 {
  import opened Wrappers

  /** A member of the 64-character alphabet of RFC 4648, Table 1. */
  predicate IsBase64Char(c: char) {
    ('A' <= c <= 'Z') || ('a' <= c <= 'z') || ('0' <= c <= '9') || c == '+' || c == '/'
  }

  /** The character that encodes the 6-bit value v (Table 1). */
  function CharOf(v: int): (c: char)
    requires 0 <= v < 64
    ensures IsBase64Char(c)
  {
    if v < 26 then ('A' as int + v) as char
    else if v < 52 then ('a' as int + (v - 26)) as char
    else if v < 62 then ('0' as int + (v - 52)) as char
    else if v == 62 then '+'
    else '/'
  }

  /** The 6-bit value an alphabet character encodes: the inverse of CharOf. */
  function ValueOf(c: char): (v: int)
    requires IsBase64Char(c)
    ensures 0 <= v < 64 && CharOf(v) == c
  {
    if 'A' <= c <= 'Z' then c as int - 'A' as int
    else if 'a' <= c <= 'z' then c as int - 'a' as int + 26
    else if '0' <= c <= '9' then c as int - '0' as int + 52
    else if c == '+' then 62
    else 63
  }

  lemma ValueOfCharOf(v: int)
    requires 0 <= v < 64
    ensures ValueOf(CharOf(v)) == v
  {
  }

  /** The character for the 6-bit value held in the low bits of x. */
  function Sextet(x: bv8): (c: char)
    requires x < 64
    ensures IsBase64Char(c)
  {
    CharOf(x as int)
  }

  /** The 6-bit value of an alphabet character, as a byte. */
  function SextetValue(c: char): (x: bv8)
    requires IsBase64Char(c)
    ensures x < 64
  {
    ValueOf(c) as bv8
  }

  lemma SextetRoundTrip(x: bv8)
    requires x < 64
    ensures SextetValue(Sextet(x)) == x
  {
    ValueOfCharOf(x as int);
  }

  // ---------------------------------------------------------------------------
  // Encoding (section 4: 24-bit groups, final quantum padded with '=')
  // ---------------------------------------------------------------------------

  /** The four characters of a full 24-bit group. */
  function EncodeGroup(a: bv8, b: bv8, c: bv8): (q: string)
    ensures |q| == 4
  {
    [Sextet(a >> 2), Sextet(((a & 3) << 4) | (b >> 4)), Sextet(((b & 15) << 2) | (c >> 6)), Sextet(c & 63)]
  }

  function Encode(data: seq<bv8>): (s: string)
    ensures |s| == (|data| + 2) / 3 * 4
    ensures forall i :: 0 <= i < |s| ==> IsBase64Char(s[i]) || s[i] == '='
  {
    if |data| == 0 then ""
    else if |data| == 1 then
      [Sextet(data[0] >> 2), Sextet((data[0] & 3) << 4), '=', '=']
    else if |data| == 2 then
      [Sextet(data[0] >> 2), Sextet(((data[0] & 3) << 4) | (data[1] >> 4)), Sextet((data[1] & 15) << 2), '=']
    else
      EncodeGroup(data[0], data[1], data[2]) + Encode(data[3..])
  }

  // ---------------------------------------------------------------------------
  // Strict decoding
  // ---------------------------------------------------------------------------

  /** The three bytes carried by four 6-bit values. */
  function Bytes3(v0: bv8, v1: bv8, v2: bv8, v3: bv8): seq<bv8> {
    [(v0 << 2) | (v1 >> 4), ((v1 & 15) << 4) | (v2 >> 2), ((v2 & 3) << 6) | v3]
  }

  /** A group of four alphabet characters (no padding). */
  function DecodeGroup(q: string): (r: Option<seq<bv8>>)
    requires |q| == 4
    ensures r.Some? ==> |r.value| == 3
  {
    if IsBase64Char(q[0]) && IsBase64Char(q[1]) && IsBase64Char(q[2]) && IsBase64Char(q[3]) then
      Some(Bytes3(SextetValue(q[0]), SextetValue(q[1]), SextetValue(q[2]), SextetValue(q[3])))
    else None
  }

  /** The final quantum, which may end in "=" (16 bits) or "==" (8 bits).
      As Python does, the unused low bits of the last character are ignored. */
  function DecodeFinal(q: string): (r: Option<seq<bv8>>)
    requires |q| == 4
    ensures r.Some? ==> 1 <= |r.value| <= 3
  {
    if IsBase64Char(q[0]) && IsBase64Char(q[1]) && q[2] == '=' && q[3] == '=' then
      Some(Bytes3(SextetValue(q[0]), SextetValue(q[1]), 0, 0)[..1])
    else if IsBase64Char(q[0]) && IsBase64Char(q[1]) && IsBase64Char(q[2]) && q[3] == '=' then
      Some(Bytes3(SextetValue(q[0]), SextetValue(q[1]), SextetValue(q[2]), 0)[..2])
    else DecodeGroup(q)
  }

  /** Decoding of a complete section-4 encoding: a multiple of four characters, all
      from the alphabet except for padding at the very end. */
  function Decode(s: string): (r: Option<seq<bv8>>)
    ensures r.Some? ==> |s| % 4 == 0
    ensures r.Some? ==> |r.value| <= |s| / 4 * 3 && (|s| > 0 ==> |r.value| > |s| / 4 * 3 - 3)
    decreases |s|
  {
    if |s| == 0 then Some([])
    else if |s| < 4 then None
    else if |s| == 4 then DecodeFinal(s)
    else match (DecodeGroup(s[..4]), Decode(s[4..]))
      case (Some(head), Some(tail)) => Some(head + tail)
      case _ => None
  }

  /** One group's round trip, by bit arithmetic on its three bytes. */
  lemma GroupRoundTrip(a: bv8, b: bv8, c: bv8)
    ensures DecodeGroup(EncodeGroup(a, b, c)) == Some([a, b, c])
  {
    SextetRoundTrip(a >> 2);
    SextetRoundTrip(((a & 3) << 4) | (b >> 4));
    SextetRoundTrip(((b & 15) << 2) | (c >> 6));
    SextetRoundTrip(c & 63);
    assert Bytes3(a >> 2, ((a & 3) << 4) | (b >> 4), ((b & 15) << 2) | (c >> 6), c & 63) == [a, b, c];
  }

  /** The round trip of a final quantum carrying one byte ("xx=="). */
  lemma OneByteRoundTrip(a: bv8)
    ensures Decode(Encode([a])) == Some([a])
  {
    SextetRoundTrip(a >> 2);
    SextetRoundTrip((a & 3) << 4);
    assert Bytes3(a >> 2, (a & 3) << 4, 0, 0)[..1] == [a];
  }

  lemma TwoByteBits(a: bv8, b: bv8)
    ensures Bytes3(a >> 2, ((a & 3) << 4) | (b >> 4), (b & 15) << 2, 0)[..2] == [a, b]
  {
  }

  /** A final quantum "xxx=" decodes to the first two bytes its sextets carry. */
  lemma DecodePaddedOnce(x0: bv8, x1: bv8, x2: bv8)
    requires x0 < 64 && x1 < 64 && x2 < 64
    ensures Decode([Sextet(x0), Sextet(x1), Sextet(x2), '=']) == Some(Bytes3(x0, x1, x2, 0)[..2])
  {
    var q := [Sextet(x0), Sextet(x1), Sextet(x2), '='];
    SextetRoundTrip(x0);
    SextetRoundTrip(x1);
    SextetRoundTrip(x2);
    assert q[2] != '=';
  }

  /** The round trip of a final quantum carrying two bytes ("xxx="). */
  lemma TwoByteRoundTrip(a: bv8, b: bv8)
    ensures Decode(Encode([a, b])) == Some([a, b])
  {
    var x0, x1, x2 := a >> 2, ((a & 3) << 4) | (b >> 4), (b & 15) << 2;
    assert Encode([a, b]) == [Sextet(x0), Sextet(x1), Sextet(x2), '='];
    DecodePaddedOnce(x0, x1, x2);
    TwoByteBits(a, b);
  }

  /** Three bytes or more: the first group, then the rest. */
  lemma {:induction false} GroupThenRest(data: seq<bv8>)
    requires |data| >= 3
    requires Decode(Encode(data[3..])) == Some(data[3..])
    ensures Decode(Encode(data)) == Some(data)
  {
    var s := Encode(data);
    var q := EncodeGroup(data[0], data[1], data[2]);
    var rest := Encode(data[3..]);
    GroupRoundTrip(data[0], data[1], data[2]);
    assert s == q + rest;
    assert data == [data[0], data[1], data[2]] + data[3..];
    if |data| == 3 {
      assert rest == [];
      assert s == q;
      assert DecodeFinal(q) == DecodeGroup(q);
      assert Decode(s) == DecodeFinal(q);
      assert data == [data[0], data[1], data[2]];
    } else {
      assert s[..4] == q;
      assert s[4..] == rest;
    }
  }

  /** Decoding inverts encoding: the round trip of RFC 4648, section 4. */
  lemma {:induction false} DecodeEncode(data: seq<bv8>)
    ensures Decode(Encode(data)) == Some(data)
  {
    if |data| == 1 {
      OneByteRoundTrip(data[0]);
      assert data == [data[0]];
    } else if |data| == 2 {
      TwoByteRoundTrip(data[0], data[1]);
      assert data == [data[0], data[1]];
    } else if |data| >= 3 {
      DecodeEncode(data[3..]);
      GroupThenRest(data);
    }
  }

  // ---------------------------------------------------------------------------
  // Python's base64.b64decode(s) for a str s
  // ---------------------------------------------------------------------------

  predicate IsAscii(s: string) {
    forall i :: 0 <= i < |s| ==> s[i] as int < 128
  }

  /** Some bytes followed by the result r, if r is one. */
  function Then(head: seq<bv8>, r: Option<seq<bv8>>): Option<seq<bv8>> {
    if r.Some? then Some(head + r.value) else None
  }

  /** The byte completed by the 6-bit value v at position quad (1 to 3) of a quantum,
      given the bits left over from the previous position. */
  function Emit(quad: nat, left: bv8, v: bv8): bv8 {
    if quad == 1 then (left << 2) | (v >> 4)
    else if quad == 2 then (left << 4) | (v >> 2)
    else (left << 6) | v
  }

  /** The bits of v at position quad that are not yet output. */
  function Carry(quad: nat, v: bv8): bv8 {
    if quad == 0 then v else if quad == 1 then v & 15 else if quad == 2 then v & 3 else 0
  }

  /** `binascii.a2b_base64(s, strict_mode=False)`, scanning s from the left in the state
      reached so far: quad is the position in the current quantum, pads counts the '='
      met at position 2 or 3 since the last alphabet character, left holds the bits not
      yet output. Characters outside the alphabet are skipped, and so is a '=' that does
      not complete a quantum; one that does ends decoding and the rest is ignored. Input
      ending inside a quantum is an error (None). */
  function A2b(s: string, quad: nat, pads: nat, left: bv8): Option<seq<bv8>>
    requires quad < 4
    decreases |s|
  {
    if s == [] then (if quad == 0 then Some([]) else None)
    else if s[0] == '=' then
      if quad < 2 then A2b(s[1..], quad, pads, left)
      else if quad + pads + 1 >= 4 then Some([])
      else A2b(s[1..], quad, pads + 1, left)
    else if !IsBase64Char(s[0]) then A2b(s[1..], quad, pads, left)
    else
      var v := SextetValue(s[0]);
      if quad == 0 then A2b(s[1..], 1, 0, Carry(0, v))
      else Then([Emit(quad, left, v)], A2b(s[1..], (quad + 1) % 4, 0, Carry(quad, v)))
  }

  /** `base64.b64decode(s)`: a str with a non-ASCII character is refused (ValueError);
      otherwise it is `binascii.a2b_base64` from the start of a quantum (None stands for
      `binascii.Error`). */
  function B64Decode(s: string): (r: Option<seq<bv8>>)
    ensures !IsAscii(s) ==> r.None?
  {
    if !IsAscii(s) then None else A2b(s, 0, 0, 0)
  }

  /** The characters the scan does not skip unconditionally: the alphabet and '='. */
  predicate Kept(c: char) {
    IsBase64Char(c) || c == '='
  }

  function KeptChars(s: string): (r: string)
    ensures forall i :: 0 <= i < |r| ==> Kept(r[i])
  {
    if s == [] then [] else (if Kept(s[0]) then [s[0]] else []) + KeptChars(s[1..])
  }

  /** Characters outside the alphabet and '=' make no difference, wherever they occur. */
  lemma {:induction false} A2bIgnoresOthers(s: string, quad: nat, pads: nat, left: bv8)
    requires quad < 4
    ensures A2b(KeptChars(s), quad, pads, left) == A2b(s, quad, pads, left)
    decreases |s|
  {
    if s != [] {
      var k := KeptChars(s);
      var rest := KeptChars(s[1..]);
      if !Kept(s[0]) {
        assert k == rest;
        A2bIgnoresOthers(s[1..], quad, pads, left);
      } else {
        assert k == [s[0]] + rest;
        assert k[0] == s[0] && k[1..] == rest;
        if s[0] == '=' {
          if quad < 2 {
            A2bIgnoresOthers(s[1..], quad, pads, left);
          } else if quad + pads + 1 < 4 {
            A2bIgnoresOthers(s[1..], quad, pads + 1, left);
          }
        } else {
          A2bIgnoresOthers(s[1..], (quad + 1) % 4, 0, Carry(quad, SextetValue(s[0])));
        }
      }
    }
  }

  lemma ThenThen(a: seq<bv8>, b: seq<bv8>, r: Option<seq<bv8>>)
    ensures Then(a, Then(b, r)) == Then(a + b, r)
  {
    if r.Some? {
      assert a + (b + r.value) == (a + b) + r.value;
    }
  }

  /** An alphabet character at position quad of a quantum (1 to 3) outputs one byte. */
  lemma A2bStep(c: char, rest: string, quad: nat, left: bv8)
    requires IsBase64Char(c) && 1 <= quad < 4
    ensures A2b([c] + rest, quad, 0, left) ==
      Then([Emit(quad, left, SextetValue(c))], A2b(rest, (quad + 1) % 4, 0, Carry(quad, SextetValue(c))))
  {
    assert ([c] + rest)[1..] == rest;
  }

  /** The bytes of DecodeGroup are those the scan outputs at positions 1 to 3. */
  lemma Bytes3Emitted(v0: bv8, v1: bv8, v2: bv8, v3: bv8)
    ensures Bytes3(v0, v1, v2, v3) == [Emit(1, v0, v1), Emit(2, Carry(1, v1), v2), Emit(3, Carry(2, v2), v3)]
  {
  }

  /** The third and fourth characters of a quantum output its second and third bytes. */
  lemma A2bFrom2(c2: char, c3: char, rest: string, left: bv8)
    requires IsBase64Char(c2) && IsBase64Char(c3)
    ensures var v2 := SextetValue(c2);
      A2b([c2] + ([c3] + rest), 2, 0, left) ==
        Then([Emit(2, left, v2), Emit(3, Carry(2, v2), SextetValue(c3))], A2b(rest, 0, 0, 0))
  {
    var v2 := SextetValue(c2);
    var b1, b2 := Emit(2, left, v2), Emit(3, Carry(2, v2), SextetValue(c3));
    A2bStep(c2, [c3] + rest, 2, left);
    A2bStep(c3, rest, 3, Carry(2, v2));
    assert Carry(3, SextetValue(c3)) == 0;
    ThenThen([b1], [b2], A2b(rest, 0, 0, 0));
    assert [b1] + [b2] == [b1, b2];
  }

  /** The second to fourth characters of a quantum output its three bytes. */
  lemma A2bFrom1(c1: char, c2: char, c3: char, rest: string, left: bv8)
    requires IsBase64Char(c1) && IsBase64Char(c2) && IsBase64Char(c3)
    ensures var v1, v2 := SextetValue(c1), SextetValue(c2);
      A2b([c1] + ([c2] + ([c3] + rest)), 1, 0, left) ==
        Then([Emit(1, left, v1), Emit(2, Carry(1, v1), v2), Emit(3, Carry(2, v2), SextetValue(c3))],
             A2b(rest, 0, 0, 0))
  {
    var v1, v2 := SextetValue(c1), SextetValue(c2);
    var b0, b1, b2 := Emit(1, left, v1), Emit(2, Carry(1, v1), v2), Emit(3, Carry(2, v2), SextetValue(c3));
    A2bStep(c1, [c2] + ([c3] + rest), 1, left);
    A2bFrom2(c2, c3, rest, Carry(1, v1));
    ThenThen([b0], [b1, b2], A2b(rest, 0, 0, 0));
    assert [b0] + [b1, b2] == [b0, b1, b2];
  }

  /** Four alphabet characters at the start of a quantum give the three bytes of their
      group, and the scan goes on from the start of the next quantum. */
  lemma A2bGroup(q: string, rest: string)
    requires |q| == 4 && IsBase64Char(q[0]) && IsBase64Char(q[1]) && IsBase64Char(q[2]) && IsBase64Char(q[3])
    ensures A2b(q + rest, 0, 0, 0) == Then(DecodeGroup(q).value, A2b(rest, 0, 0, 0))
  {
    var s1 := [q[1]] + ([q[2]] + ([q[3]] + rest));
    assert q + rest == [q[0]] + s1;
    assert ([q[0]] + s1)[1..] == s1;
    A2bFrom1(q[1], q[2], q[3], rest, SextetValue(q[0]));
    Bytes3Emitted(SextetValue(q[0]), SextetValue(q[1]), SextetValue(q[2]), SextetValue(q[3]));
  }

  /** A '=' at position 2 or 3 of a quantum ends decoding once it completes the quantum,
      and is otherwise counted. */
  lemma A2bPad(rest: string, quad: nat, pads: nat, left: bv8)
    requires 2 <= quad < 4
    ensures A2b(['='] + rest, quad, pads, left) ==
      if quad + pads + 1 >= 4 then Some([]) else A2b(rest, quad, pads + 1, left)
  {
    assert (['='] + rest)[1..] == rest;
  }

  /** A final quantum "xx==" at the start of a quantum outputs one byte and ends decoding. */
  lemma A2bPaddedTwice(c0: char, c1: char, rest: string)
    requires IsBase64Char(c0) && IsBase64Char(c1)
    ensures A2b([c0] + ([c1] + (['='] + (['='] + rest))), 0, 0, 0) ==
      Some([Emit(1, SextetValue(c0), SextetValue(c1))])
  {
    var v0, v1 := SextetValue(c0), SextetValue(c1);
    var s2 := ['='] + (['='] + rest);
    assert ([c0] + ([c1] + s2))[1..] == [c1] + s2;
    A2bStep(c1, s2, 1, v0);
    A2bPad(['='] + rest, 2, 0, Carry(1, v1));
    A2bPad(rest, 2, 1, Carry(1, v1));
    assert [Emit(1, v0, v1)] + [] == [Emit(1, v0, v1)];
  }

  /** "x=" at the third position of a quantum outputs the second byte and ends decoding. */
  lemma A2bPaddedFrom2(c2: char, rest: string, left: bv8)
    requires IsBase64Char(c2)
    ensures A2b([c2] + (['='] + rest), 2, 0, left) == Some([Emit(2, left, SextetValue(c2))])
  {
    A2bStep(c2, ['='] + rest, 2, left);
    A2bPad(rest, 3, 0, Carry(2, SextetValue(c2)));
    assert [Emit(2, left, SextetValue(c2))] + [] == [Emit(2, left, SextetValue(c2))];
  }

  /** A final quantum "xxx=" at the start of a quantum outputs two bytes and ends decoding. */
  lemma A2bPaddedOnce(c0: char, c1: char, c2: char, rest: string)
    requires IsBase64Char(c0) && IsBase64Char(c1) && IsBase64Char(c2)
    ensures var v1 := SextetValue(c1);
      A2b([c0] + ([c1] + ([c2] + (['='] + rest))), 0, 0, 0) ==
        Some([Emit(1, SextetValue(c0), v1), Emit(2, Carry(1, v1), SextetValue(c2))])
  {
    var v0, v1 := SextetValue(c0), SextetValue(c1);
    var b0, b1 := Emit(1, v0, v1), Emit(2, Carry(1, v1), SextetValue(c2));
    var s2 := [c2] + (['='] + rest);
    assert ([c0] + ([c1] + s2))[1..] == [c1] + s2;
    A2bStep(c1, s2, 1, v0);
    A2bPaddedFrom2(c2, rest, Carry(1, v1));
    assert [b0] + [b1] == [b0, b1];
  }

  /** A final quantum "xx==" or "xxx=" at the start of a quantum ends decoding: whatever
      follows it is ignored. */
  lemma A2bPadded(q: string, rest: string)
    requires |q| == 4 && q[3] == '=' && DecodeFinal(q).Some?
    ensures A2b(q + rest, 0, 0, 0) == DecodeFinal(q)
  {
    var v0, v1 := SextetValue(q[0]), SextetValue(q[1]);
    if q[2] == '=' {
      assert q + rest == [q[0]] + ([q[1]] + (['='] + (['='] + rest)));
      A2bPaddedTwice(q[0], q[1], rest);
      Bytes3Emitted(v0, v1, 0, 0);
      assert Bytes3(v0, v1, 0, 0)[..1] == [Emit(1, v0, v1)];
    } else {
      var v2 := SextetValue(q[2]);
      assert q + rest == [q[0]] + ([q[1]] + ([q[2]] + (['='] + rest)));
      A2bPaddedOnce(q[0], q[1], q[2], rest);
      Bytes3Emitted(v0, v1, v2, 0);
      assert Bytes3(v0, v1, v2, 0)[..2] == [Emit(1, v0, v1), Emit(2, Carry(1, v1), v2)];
    }
  }

  /** On every strict section-4 encoding, the lenient scan gives the same bytes. */
  lemma {:induction false} A2bAgreesWithDecode(s: string)
    requires Decode(s).Some?
    ensures A2b(s, 0, 0, 0) == Decode(s)
    decreases |s|
  {
    if |s| == 4 {
      if s[3] == '=' {
        A2bPadded(s, []);
      } else {
        A2bGroup(s, []);
        assert Decode(s) == DecodeGroup(s);
        assert DecodeGroup(s).value + [] == DecodeGroup(s).value;
      }
      assert s + [] == s;
    } else if |s| > 4 {
      A2bAgreesWithDecode(s[4..]);
      A2bGroup(s[..4], s[4..]);
      assert s[..4] + s[4..] == s;
    }
  }

  /** A quantum the strict decoder accepts holds only alphabet characters and '='. */
  lemma QuantumKept(q: string)
    requires |q| == 4 && DecodeFinal(q).Some?
    ensures forall i :: 0 <= i < 4 ==> Kept(q[i])
  {
  }

  /** Every strict section-4 encoding is ASCII. */
  lemma {:induction false} DecodedIsAscii(s: string)
    requires Decode(s).Some?
    ensures IsAscii(s)
    decreases |s|
  {
    if |s| >= 4 {
      var head := s[..4];
      if |s| == 4 {
        assert head == s;
      } else {
        assert DecodeGroup(head).Some? && Decode(s[4..]).Some?;
        DecodedIsAscii(s[4..]);
      }
      QuantumKept(head);
      forall i | 0 <= i < |s| ensures s[i] as int < 128 {
        if i < 4 {
          assert s[i] == head[i];
        } else {
          assert s[i] == s[4..][i - 4];
        }
      }
    }
  }

  /** `base64.b64decode` agrees with the strict decoder wherever that one succeeds. */
  lemma B64DecodeAgrees(s: string)
    requires Decode(s).Some?
    ensures B64Decode(s) == Decode(s)
  {
    DecodedIsAscii(s);
    A2bAgreesWithDecode(s);
  }

  /** What `base64.b64encode` produces is decoded back to the original bytes. */
  lemma B64DecodeEncode(data: seq<bv8>)
    ensures B64Decode(Encode(data)) == Some(data)
  {
    DecodeEncode(data);
    B64DecodeAgrees(Encode(data));
  }

  /** The group "QUJD" carries the bytes of "ABC". */
  lemma GroupABC()
    ensures DecodeGroup("QUJD") == Some([65, 66, 67])
  {
    assert SextetValue('Q') == 16 && SextetValue('U') == 20 && SextetValue('J') == 9 && SextetValue('D') == 3;
  }

  /** A text of padding only decodes to no bytes, where the strict decoder refuses it. */
  lemma B64DecodeOnlyPadding()
    ensures B64Decode("====") == Some([]) && Decode("====") == None
  {
    assert "===="[1..] == "===" && "==="[1..] == "==" && "=="[1..] == "=" && "="[1..] == "";
  }

  /** A surplus '=' after a full quantum is skipped. */
  lemma B64DecodeSurplusPad()
    ensures B64Decode("QUJD=") == Some([65, 66, 67]) && Decode("QUJD=") == None
  {
    GroupABC();
    assert "QUJD=" == "QUJD" + "=";
    assert "="[1..] == "";
    A2bGroup("QUJD", "=");
    var abc: seq<bv8> := [65, 66, 67];
    assert abc + [] == abc;
  }

  /** A '=' at the start of a quantum is skipped. */
  lemma B64DecodeLeadingPad()
    ensures B64Decode("=QUJD") == Some([65, 66, 67]) && Decode("=QUJD") == None
  {
    GroupABC();
    assert "=QUJD"[1..] == "QUJD";
    assert "QUJD" == "QUJD" + "";
    A2bGroup("QUJD", "");
    var abc: seq<bv8> := [65, 66, 67];
    assert abc + [] == abc;
  }

  /** Decoding stops at the '=' that completes a quantum; what follows is ignored. */
  lemma B64DecodeStopsAtPad()
    ensures B64Decode("QQ===") == Some([65]) && Decode("QQ===") == None
    ensures B64Decode("QQ==QUJD") == Some([65]) && Decode("QQ==QUJD") == None
  {
    var qq := "QQ==";
    assert qq[0] == 'Q' && qq[1] == 'Q' && qq[2] == '=' && qq[3] == '=';
    assert SextetValue('Q') == 16;
    assert Bytes3(16, 16, 0, 0)[..1] == [65];
    assert DecodeFinal(qq) == Some([65]);
    assert "QQ===" == "QQ==" + "=";
    A2bPadded("QQ==", "=");
    assert "QQ==QUJD" == "QQ==" + "QUJD";
    A2bPadded("QQ==", "QUJD");
    assert DecodeGroup("QQ==") == None;
  }
}
