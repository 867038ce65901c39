/** The binary encoding and the chunked transfer of base/remote_gdb.cc (qXfer:features:read). */
module Xfer {
  import opened Arith
  import opened Options

  type Byte = bv8

  const DOLLAR: Byte := 0x24
  const HASH: Byte := 0x23
  const BRACE: Byte := 0x7D
  const STAR: Byte := 0x2A
  const MORE: Byte := 0x6D
  const LAST: Byte := 0x6C

  predicate Special(c: Byte) {
    c == DOLLAR || c == HASH || c == BRACE || c == STAR
  }

  function EscapeByte(c: Byte): seq<Byte> {
    if Special(c) then [BRACE, c ^ 0x20] else [c]
  }

  function Escape(s: seq<Byte>): seq<Byte> {
    if s == [] then [] else Escape(s[..|s| - 1]) + EscapeByte(s[|s| - 1])
  }

  method EncodeBinaryData(unencoded: seq<Byte>, before: seq<Byte>) returns (encoded: seq<Byte>)
    ensures encoded == before + Escape(unencoded)
  {
    encoded := before;
    for i := 0 to |unencoded|
      invariant encoded == before + Escape(unencoded[..i])
    {
      var c := unencoded[i];
      assert unencoded[..i + 1][..i] == unencoded[..i];
      if c == DOLLAR || c == HASH || c == BRACE || c == STAR {
        encoded := encoded + [BRACE];
        encoded := encoded + [c ^ 0x20];
      } else {
        encoded := encoded + [c];
      }
    }
    assert unencoded[..|unencoded|] == unencoded;
  }

  /** What the receiver does: the byte after '}' stands for itself with bit 5 flipped. */
  function Unescape(s: seq<Byte>): Option<seq<Byte>> {
    if s == [] then Some([])
    else if s[0] == BRACE then
      if |s| == 1 then None
      else
        var rest := Unescape(s[2..]);
        if rest == None then None else Some([s[1] ^ 0x20] + rest.value)
    else
      var rest := Unescape(s[1..]);
      if rest == None then None else Some([s[0]] + rest.value)
  }

  lemma EscapedByte(c: Byte)
    ensures c ^ 0x20 ^ 0x20 == c
    ensures Special(c) ==> !Special(c ^ 0x20)
  {
  }

  lemma Associates(a: seq<Byte>, b: seq<Byte>, c: seq<Byte>)
    ensures a + (b + c) == (a + b) + c
  {
  }

  lemma {:induction false} EscapeFirst(s: seq<Byte>)
    requires s != []
    ensures Escape(s) == EscapeByte(s[0]) + Escape(s[1..])
  {
    hide EscapeByte;
    var n := |s| - 1;
    if n == 0 {
      assert s[..0] == [] && s[1..] == [];
    } else {
      EscapeFirst(s[..n]);
      assert s[..n][1..] == s[1..][..n - 1];
      Associates(EscapeByte(s[0]), Escape(s[1..][..n - 1]), EscapeByte(s[n]));
    }
  }

  /** The receiver gets back what was encoded ... */
  lemma {:induction false} UnescapeUndoesEscape(s: seq<Byte>)
    ensures Unescape(Escape(s)) == Some(s)
  {
    if s != [] {
      EscapeFirst(s);
      EscapedByte(s[0]);
      UnescapeUndoesEscape(s[1..]);
      var rest := Escape(s[1..]);
      if Special(s[0]) {
        assert ([BRACE, s[0] ^ 0x20] + rest)[2..] == rest;
      } else {
        assert ([s[0]] + rest)[1..] == rest;
      }
      assert s == [s[0]] + s[1..];
    }
  }

  /** ... and no byte with a meaning of its own on the wire is sent, except the escape itself. */
  lemma {:induction false} EscapeIsClean(s: seq<Byte>)
    ensures forall c :: c in Escape(s) ==> c != DOLLAR && c != HASH && c != STAR
  {
    if s != [] {
      var n := |s| - 1;
      EscapeIsClean(s[..n]);
      EscapedByte(s[n]);
    }
  }

  function Specials(s: seq<Byte>): nat {
    if s == [] then 0 else (if Special(s[|s| - 1]) then 1 else 0) + Specials(s[..|s| - 1])
  }

  /** No other byte is escaped: the encoding is longer by one byte for each special one, and without them changes nothing. */
  lemma {:induction false} EscapeIsMinimal(s: seq<Byte>)
    ensures |Escape(s)| == |s| + Specials(s)
    ensures Specials(s) == 0 ==> Escape(s) == s
  {
    if s != [] {
      var n := |s| - 1;
      EscapeIsMinimal(s[..n]);
      assert s == s[..n] + [s[n]];
    }
  }

  /** The bytes are the characters of the protocol. */
  lemma SpecialIs(c: Byte)
    ensures Special(c) <==> c as int in {'$' as int, '#' as int, '}' as int, '*' as int}
    ensures BRACE as int == '}' as int && MORE as int == 'm' as int && LAST as int == 'l' as int
    ensures DOLLAR as int == '$' as int && HASH as int == '#' as int && STAR as int == '*' as int
  {
    assert DOLLAR as int == 0x24 && HASH as int == 0x23 && BRACE as int == 0x7D && STAR as int == 0x2A;
    var x := c as int;
    assert x as Byte == c;
  }

  /** The reply to a request; substr throws when the offset lies beyond the end. */
  function Reply(content: seq<Byte>, offset: nat, len: nat): Option<seq<Byte>> {
    if offset > |content| then None
    else
      var end := if offset + len <= |content| then offset + len else |content|;
      Some([if (offset + len) % TWO64 < |content| then MORE else LAST] + Escape(content[offset..end]))
  }

  lemma ReplyIsClean(content: seq<Byte>, offset: nat, len: nat)
    requires offset <= |content|
    ensures forall c :: c in Reply(content, offset, len).value ==> c != DOLLAR && c != HASH && c != STAR
  {
    EscapeIsClean(content[offset..if offset + len <= |content| then offset + len else |content|]);
  }

  method EncodeXferResponse(content: seq<Byte>, offset: nat, len: nat) returns (encoded: Option<seq<Byte>>)
    requires offset < TWO64 && len < TWO64
    ensures encoded == Reply(content, offset, len)
  {
    var head := if (offset + len) % TWO64 < |content| then [MORE] else [LAST];
    if offset > |content| {
      return None;
    }
    var end := if offset + len <= |content| then offset + len else |content|;
    var r := EncodeBinaryData(content[offset..end], head);
    encoded := Some(r);
  }

  /**
   The first byte says 'm' exactly when content is left after this chunk, if and only if the sum of
   offset and length does not wrap to below the length of the content.
   */
  lemma HeadTellsMore(content: seq<Byte>, offset: nat, len: nat)
    requires offset <= |content| < TWO64 && len < TWO64
    ensures var r := Reply(content, offset, len);
            && r.Some? && |r.value| > 0
            && ((r.value[0] == MORE <==> offset + len < |content|) <==> !(TWO64 <= offset + len < TWO64 + |content|))
  {
    var sum := offset + len;
    assert sum % TWO64 == if sum < TWO64 then sum else sum - TWO64;
  }

  /** Offset 1 and the largest length: the reply carries all the rest and still says that there is more. */
  lemma WrapPromisesMore(content: seq<Byte>)
    requires 1 <= |content| < TWO64
    ensures Reply(content, 1, TWO64 - 1) == Some([MORE] + Escape(content[1..]))
  {
    assert (1 + (TWO64 - 1)) % TWO64 == 0;
    assert content[1..|content|] == content[1..];
  }

  /** Where the chunk of a request ends. */
  function ChunkEnd(content: seq<Byte>, offset: nat, len: nat): nat {
    if offset + len <= |content| then offset + len else |content|
  }

  /** There is a reply exactly up to the end of the content. */
  lemma ReplyExists(content: seq<Byte>, offset: nat, len: nat)
    ensures Reply(content, offset, len).Some? <==> offset <= |content|
  {
  }

  /** Whatever the offset and length, the reply carries the content from offset on, up to length bytes of it. */
  lemma ReplyCarries(content: seq<Byte>, offset: nat, len: nat)
    requires offset <= |content|
    ensures var r := Reply(content, offset, len);
            && r.Some? && |r.value| > 0 && r.value[0] in {MORE, LAST}
            && Unescape(r.value[1..]) == Some(content[offset..][..if offset + len < |content| then len else |content| - offset])
  {
    var n := if offset + len < |content| then len else |content| - offset;
    var chunk := content[offset..][..n];
    assert chunk == content[offset..offset + n];
    UnescapeUndoesEscape(chunk);
    assert Reply(content, offset, len).value[1..] == Escape(chunk);
  }

  /** The sum of offset and length does not wrap on the way through the content. */
  lemma ChunkOfReply(content: seq<Byte>, offset: nat, len: nat)
    requires 1 <= len < TWO64 && |content| < TWO64 / 2 && offset <= |content| && (offset == 0 || offset >= len)
    ensures var r := Reply(content, offset, len);
            && r.Some? && |r.value| > 0 && Unescape(r.value[1..]) == Some(content[offset..ChunkEnd(content, offset, len)])
            && r.value[0] == if offset + len < |content| then MORE else LAST
  {
    var chunk := content[offset..ChunkEnd(content, offset, len)];
    UnescapeUndoesEscape(chunk);
    assert (offset + len) % TWO64 == offset + len;
    assert Reply(content, offset, len).value[1..] == Escape(chunk);
  }

  /** Requests of len bytes at offsets 0, len, 2 * len, ... until a reply starts with 'l'. */
  method Transfer(content: seq<Byte>, len: nat) returns (received: seq<Byte>)
    requires 1 <= len < TWO64 && |content| < TWO64 / 2
    ensures received == content
  {
    received := [];
    var offset := 0;
    while true
      invariant offset <= |content| && received == content[..offset] && (offset == 0 || offset >= len)
      decreases |content| - offset
    {
      var reply := EncodeXferResponse(content, offset, len);
      ChunkOfReply(content, offset, len);
      received := received + Unescape(reply.value[1..]).value;
      assert received == content[..ChunkEnd(content, offset, len)];
      if reply.value[0] == LAST {
        return;
      }
      offset := offset + len;
    }
  }
}
