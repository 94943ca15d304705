/**
 * V2GTP framing (section 7.8.3 of ISO 15118-2) as a recursive parser over a whole byte
 * stream, its inverse, and how the parse of a stream composes from the parses of its pieces.
 */
module V2gtpFraming {
  import opened Bytes

  const HEADER_LEN: nat := 8
  const BUFFER_SIZE: nat := 2048
  const V2GTP_EXI: nat := 0x8001

  /** A complete message; the two version bytes are carried along unchecked. */
  datatype Frame = Frame(version: seq<Byte>, ptype: nat, payload: seq<Byte>)

  /** Can this frame be written in the wire format at all? */
  predicate Wellformed(f: Frame) {
    |f.version| == 2 && f.ptype < 0x1_0000 && |f.payload| < 0x1_0000_0000
  }

  function PayloadType(s: seq<Byte>): nat
    requires |s| >= HEADER_LEN
  {
    FromBigEndian(s[2..4])
  }

  function DeclaredLen(s: seq<Byte>): nat
    requires |s| >= HEADER_LEN
  {
    FromBigEndian(s[4..8])
  }

  datatype Header = Header(ptype: nat, payloadLength: nat)

  /** The four shifted bytes of the length field. */
  function LengthField(a: Byte, b: Byte, c: Byte, d: Byte): nat {
    0x100_0000 * (a as int) + 0x1_0000 * (b as int) + 0x100 * (c as int) + d as int
  }

  /** v2gtp_parse_header: the fields by shifts, equal to the big-endian numbers they denote. */
  function ParseHeader(s: seq<Byte>): (h: Header)
    requires |s| >= HEADER_LEN
    ensures h.ptype == PayloadType(s) < 0x1_0000
    ensures h.payloadLength == DeclaredLen(s) < 0x1_0000_0000
  {
    ShiftForms(s[2], s[3], 0, 0);
    ShiftForms(s[4], s[5], s[6], s[7]);
    assert s[2..4] == [s[2], s[3]] && s[4..8] == [s[4], s[5], s[6], s[7]];
    Header(0x100 * (s[2] as int) + s[3], LengthField(s[4], s[5], s[6], s[7]))
  }

  /** Does s start with a whole message? */
  predicate Complete(s: seq<Byte>) {
    |s| >= HEADER_LEN && HEADER_LEN + DeclaredLen(s) <= |s|
  }

  function FirstLen(s: seq<Byte>): (n: nat)
    requires Complete(s)
    ensures HEADER_LEN <= n <= |s|
  {
    HEADER_LEN + DeclaredLen(s)
  }

  function First(s: seq<Byte>): Frame
    requires Complete(s)
  {
    Frame(s[..2], PayloadType(s), s[HEADER_LEN..FirstLen(s)])
  }

  /** The complete messages at the front of s, in order. */
  function Frames(s: seq<Byte>): seq<Frame>
    decreases |s|
  {
    if Complete(s) then [First(s)] + Frames(s[FirstLen(s)..]) else []
  }

  /** What is left of s after them. */
  function Rest(s: seq<Byte>): (r: seq<Byte>)
    ensures |r| <= |s| && !Complete(r)
    decreases |s|
  {
    if Complete(s) then Rest(s[FirstLen(s)..]) else s
  }

  function Serialize(f: Frame): (s: seq<Byte>)
    requires Wellformed(f)
    ensures |s| == HEADER_LEN + |f.payload|
  {
    f.version + BigEndian(f.ptype, 2) + BigEndian(|f.payload|, 4) + f.payload
  }

  predicate AllWellformed(fs: seq<Frame>) {
    forall f :: f in fs ==> Wellformed(f)
  }

  function SerializeAll(fs: seq<Frame>): seq<Byte>
    requires AllWellformed(fs)
  {
    if fs == [] then [] else Serialize(fs[0]) + SerializeAll(fs[1..])
  }

  /** Reading back one serialized message, whatever follows it. */
  lemma FirstOfSerialized(f: Frame, tail: seq<Byte>)
    requires Wellformed(f)
    ensures var s := Serialize(f) + tail;
            Complete(s) && First(s) == f && s[FirstLen(s)..] == tail
  {
    var s := Serialize(f) + tail;
    assert s[..2] == f.version && s[2..4] == BigEndian(f.ptype, 2) && s[4..8] == BigEndian(|f.payload|, 4);
    Pow256Values();
    DecodeEncode(f.ptype, 2);
    DecodeEncode(|f.payload|, 4);
    assert s[8..8 + |f.payload|] == f.payload;
    assert s[8 + |f.payload|..] == tail;
  }

  lemma HeaderFields(s: seq<Byte>)
    requires |s| >= HEADER_LEN
    ensures PayloadType(s) < 0x1_0000 && BigEndian(PayloadType(s), 2) == s[2..4]
    ensures DeclaredLen(s) < 0x1_0000_0000 && BigEndian(DeclaredLen(s), 4) == s[4..8]
  {
    assert |s[2..4]| == 2 && |s[4..8]| == 4;
    Pow256Values();
    EncodeDecode(s[2..4]);
    EncodeDecode(s[4..8]);
  }

  lemma Pieces(s: seq<Byte>, n: nat)
    requires HEADER_LEN <= n <= |s|
    ensures s[..n] == s[..2] + s[2..4] + s[4..8] + s[8..n]
  {
  }

  /** Writing back one parsed message gives its own bytes. */
  lemma SerializedFirst(s: seq<Byte>)
    requires Complete(s)
    ensures Wellformed(First(s)) && Serialize(First(s)) == s[..FirstLen(s)]
  {
    HeaderFields(s);
    Pieces(s, FirstLen(s));
    assert |First(s).payload| == DeclaredLen(s);
  }

  /** Byte conservation: re-serializing what was parsed, plus what was left, is the input. */
  lemma {:induction false} Conservation(s: seq<Byte>)
    ensures AllWellformed(Frames(s)) && SerializeAll(Frames(s)) + Rest(s) == s
    decreases |s|
  {
    if Complete(s) {
      var tail := s[FirstLen(s)..];
      SerializedFirst(s);
      Conservation(tail);
      assert Frames(s)[1..] == Frames(tail);
      assert s == s[..FirstLen(s)] + tail;
    }
  }

  /**
   * Deframing is the only way to read a stream: if s is some messages followed by bytes
   * that hold no complete message, the parser finds exactly those.
   */
  lemma {:induction false} Unique(fs: seq<Frame>, rest: seq<Byte>)
    requires AllWellformed(fs) && !Complete(rest)
    ensures Frames(SerializeAll(fs) + rest) == fs && Rest(SerializeAll(fs) + rest) == rest
    decreases |fs|
  {
    if fs == [] {
      assert SerializeAll(fs) + rest == rest;
    } else {
      var tail := SerializeAll(fs[1..]) + rest;
      assert SerializeAll(fs) + rest == Serialize(fs[0]) + tail;
      FirstOfSerialized(fs[0], tail);
      Unique(fs[1..], rest);
    }
  }

  /** More bytes at the end do not change a message that is already complete. */
  lemma PrefixComplete(a: seq<Byte>, b: seq<Byte>)
    requires Complete(a)
    ensures Complete(a + b) && First(a + b) == First(a) && FirstLen(a + b) == FirstLen(a)
    ensures (a + b)[FirstLen(a)..] == a[FirstLen(a)..] + b
  {
    assert (a + b)[2..4] == a[2..4] && (a + b)[4..8] == a[4..8] && (a + b)[..2] == a[..2];
    assert (a + b)[8..FirstLen(a)] == a[8..FirstLen(a)];
  }

  /** Parsing a then the remainder with b is parsing the whole. */
  lemma {:induction false} Split(a: seq<Byte>, b: seq<Byte>)
    ensures Frames(a + b) == Frames(a) + Frames(Rest(a) + b)
    ensures Rest(a + b) == Rest(Rest(a) + b)
    decreases |a|
  {
    if Complete(a) {
      PrefixComplete(a, b);
      Split(a[FirstLen(a)..], b);
    }
  }

  /** Every header met while parsing s declares a message of at most m bytes. */
  predicate MessagesWithin(s: seq<Byte>, m: nat)
    decreases |s|
  {
    |s| >= HEADER_LEN ==>
      HEADER_LEN + DeclaredLen(s) <= m && (Complete(s) ==> MessagesWithin(s[FirstLen(s)..], m))
  }

  lemma {:induction false} RestShort(s: seq<Byte>, m: nat)
    requires MessagesWithin(s, m) && m >= HEADER_LEN
    ensures |Rest(s)| < m
    decreases |s|
  {
    if Complete(s) {
      RestShort(s[FirstLen(s)..], m);
    }
  }

  lemma {:induction false} WithinSplit(a: seq<Byte>, b: seq<Byte>, m: nat)
    requires MessagesWithin(a + b, m)
    ensures MessagesWithin(a, m) && MessagesWithin(Rest(a) + b, m)
    decreases |a|
  {
    if Complete(a) {
      PrefixComplete(a, b);
      WithinSplit(a[FirstLen(a)..], b, m);
    } else if |a| >= HEADER_LEN {
      assert (a + b)[4..8] == a[4..8];
    }
  }

  // ---- The same test in C's 32-bit arithmetic ----

  const INT_MAX: nat := 0x7FFF_FFFF

  /** What a signed 32-bit int holds of n. */
  function Int32(n: int): int {
    (n + 0x8000_0000) % 0x1_0000_0000 - 0x8000_0000
  }

  /** V2GTP_HEADER_LEN + payload_length, as an unsigned 32-bit sum. */
  function Sum32(payloadLength: nat): nat {
    (HEADER_LEN + payloadLength) % 0x1_0000_0000
  }

  /** message_len: that sum, stored in an int. */
  function MessageLen(payloadLength: nat): int {
    Int32(Sum32(payloadLength))
  }

  /** The loop's test on the buffer s passes: the message at `at` is taken to be there. */
  predicate TakenAsPresent(s: seq<Byte>, at: nat)
    requires at + HEADER_LEN <= |s|
  {
    Int32(at + MessageLen(DeclaredLen(s[at..]))) <= |s|
  }

  /** The message that starts at `at` ends at a place an int can hold. */
  predicate EndFits(s: seq<Byte>, at: nat)
    requires at + HEADER_LEN <= |s|
  {
    at + HEADER_LEN + DeclaredLen(s[at..]) <= INT_MAX
  }

  /**
   * The test is right, and the offset computed for the next message is too, exactly when the
   * message's end fits an int. Every message whose end does not is taken to be there.
   */
  lemma CompleteTestExactIff(s: seq<Byte>, at: nat)
    requires at + HEADER_LEN <= |s| <= BUFFER_SIZE
    ensures (TakenAsPresent(s, at) <==> Complete(s[at..])) <==> EndFits(s, at)
    ensures Int32(at + MessageLen(DeclaredLen(s[at..]))) == at + HEADER_LEN + DeclaredLen(s[at..])
            <==> EndFits(s, at)
    ensures !EndFits(s, at) ==> TakenAsPresent(s, at)
  {
    HeaderFields(s[at..]);
    NextOffsetExactIff(at, DeclaredLen(s[at..]));
  }

  lemma NextOffsetExactIff(at: nat, declared: nat)
    requires at + HEADER_LEN <= BUFFER_SIZE && declared < 0x1_0000_0000
    ensures Int32(at + MessageLen(declared)) ==
            if at + HEADER_LEN + declared <= INT_MAX then at + HEADER_LEN + declared
            else at + HEADER_LEN + declared - 0x1_0000_0000
  {
  }

  /** A declared length below 2^31 - 8 fails too: behind an empty message, 2 GB are taken to be there. */
  lemma EndOverflows() returns (s: seq<Byte>)
    ensures s == [0x01, 0xFE, 0, 0, 0, 0, 0, 0, 0x01, 0xFE, 0, 0, 0x7F, 0xFF, 0xFF, 0xF7]
    ensures Complete(s) && FirstLen(s) == 8 && DeclaredLen(s[8..]) == 0x7FFF_FFF7
    ensures MessageLen(DeclaredLen(s[8..])) == HEADER_LEN + DeclaredLen(s[8..])
    ensures TakenAsPresent(s, 8) && !Complete(s[8..])
  {
    s := [0x01, 0xFE, 0, 0, 0, 0, 0, 0, 0x01, 0xFE, 0, 0, 0x7F, 0xFF, 0xFF, 0xF7];
    assert s[4..8] == [0, 0, 0, 0] && s[8..][4..8] == [0x7F, 0xFF, 0xFF, 0xF7];
    ShiftForms(0, 0, 0, 0);
    ShiftForms(0x7F, 0xFF, 0xFF, 0xF7);
  }

  /** A header on which the loop makes no progress at all: not EXI, and the next offset is its own. */
  lemma NeverAdvances() returns (s: seq<Byte>)
    ensures s == [0x01, 0xFE, 0, 0, 0xFF, 0xFF, 0xFF, 0xF8]
    ensures PayloadType(s) != V2GTP_EXI && TakenAsPresent(s, 0) && !Complete(s)
    ensures Int32(0 + MessageLen(DeclaredLen(s[0..]))) == 0
  {
    s := [0x01, 0xFE, 0, 0, 0xFF, 0xFF, 0xFF, 0xF8];
    assert s[0..] == s && s[2..4] == [0, 0] && s[4..8] == [0xFF, 0xFF, 0xFF, 0xF8];
    ShiftForms(0, 0, 0, 0);
    ShiftForms(0xFF, 0xFF, 0xFF, 0xF8);
  }

  /** The header left at the end of the buffer s, if any, declares a message whose end fits an int. */
  predicate RestFits(s: seq<Byte>) {
    |Rest(s)| >= HEADER_LEN ==> |s| - |Rest(s)| + HEADER_LEN + DeclaredLen(Rest(s)) <= INT_MAX
  }

  /** An EXI header whose length is negative once it is an int, as the decoder takes it. */
  predicate NegativeLength(s: seq<Byte>) {
    |s| >= HEADER_LEN && PayloadType(s) == V2GTP_EXI && DeclaredLen(s) > INT_MAX
  }

  /** Messages of at most m bytes leave no such header. */
  lemma WithinFits(s: seq<Byte>, m: nat)
    requires MessagesWithin(s, m) && |s| + m <= INT_MAX
    ensures RestFits(s) && !NegativeLength(Rest(s))
  {
    assert s + [] == s && Rest(s) + [] == Rest(s);
    WithinSplit(s, [], m);
  }
}
