/** Signatures over lists of texts (src/auth.rs): a keyed tag over the NUL-terminated parts, cut to
    16 bytes and written in URL-safe base64. */
module Crypto {
  import opened Text

  const NUL: char := 0 as char

  /** The keyed hash and the two base64 directions. */
  datatype Suite = Suite(tag: (string, string) -> string, encode: string -> string,
                         decode: string -> Option<string>)

  predicate IsUrlSafe(c: char) {
    'A' <= c <= 'Z' || 'a' <= c <= 'z' || IsDigit(c) || c == '-' || c == '_'
  }

  /** What is assumed of them: 32-byte tags, and base64 of section 5 of RFC 4648 without padding,
      in which 22 characters are 16 bytes. */
  ghost predicate Sound(c: Suite) {
    && (forall key, data :: |c.tag(key, data)| == 32 && All(IsByte, c.tag(key, data)))
    && (forall d :: |d| == 16 && All(IsByte, d) ==> SoundCode(c, d))
    && (forall s :: c.decode(s).Some? && |c.decode(s).value| == 16 ==> |s| == 22)
  }

  ghost predicate SoundCode(c: Suite, d: string) {
    c.decode(c.encode(d)) == Some(d) && |c.encode(d)| == 22 && All(IsUrlSafe, c.encode(d))
  }

  /** The bytes fed to the keyed hash. */
  function Frame(parts: seq<string>): string {
    if parts == [] then "" else parts[0] + ([NUL] + Frame(parts[1..]))
  }

  method FrameLoop(parts: seq<string>) returns (data: string)
    ensures data == Frame(parts)
  {
    data := "";
    assert parts[0..] == parts;
    for i := 0 to |parts|
      invariant Frame(parts) == data + Frame(parts[i..])
    {
      assert parts[i..][1..] == parts[i + 1..];
      FrameStep(data, parts[i], Frame(parts[i + 1..]));
      data := data + parts[i];
      data := data + [NUL];
    }
  }

  lemma FrameStep(data: string, p: string, t: string)
    ensures data + (p + ([NUL] + t)) == data + p + [NUL] + t
  {
    var q := data + p;
    assert data + (p + ([NUL] + t)) == q + ([NUL] + t);
    assert q + ([NUL] + t) == q + [NUL] + t;
  }

  function Tag(c: Suite, secret: string, parts: seq<string>): string {
    var t := c.tag(secret, Frame(parts));
    if |t| < 16 then t else t[..16]
  }

  function Sign(c: Suite, secret: string, parts: seq<string>): string {
    c.encode(Tag(c, secret, parts))
  }

  predicate Verify(c: Suite, secret: string, signature: string, parts: seq<string>) {
    match c.decode(signature)
    case None => false
    case Some(d) => |d| == 16 && d == Tag(c, secret, parts)
  }

  lemma TagIsBytes(c: Suite, secret: string, parts: seq<string>)
    requires Sound(c)
    ensures |Tag(c, secret, parts)| == 16 && All(IsByte, Tag(c, secret, parts))
  {
    assert |c.tag(secret, Frame(parts))| == 32;
  }

  /** A signature always verifies for its own parts. */
  lemma SignedVerifies(c: Suite, secret: string, parts: seq<string>)
    requires Sound(c)
    ensures Verify(c, secret, Sign(c, secret, parts), parts)
    ensures |Sign(c, secret, parts)| == 22 && All(IsUrlSafe, Sign(c, secret, parts))
  {
    TagIsBytes(c, secret, parts);
    assert SoundCode(c, Tag(c, secret, parts));
  }

  ghost predicate NulFree(parts: seq<string>) {
    forall i :: 0 <= i < |parts| ==> NUL !in parts[i]
  }

  /** The framing is injective: two lists of NUL-free parts with the same bytes are the same list. */
  lemma {:induction false} FrameInjective(a: seq<string>, b: seq<string>)
    requires NulFree(a) && NulFree(b) && Frame(a) == Frame(b)
    ensures a == b
    decreases |a|
  {
    if a == [] || b == [] {
      assert a == b;
    } else {
      FindOfPrefix(NUL, a[0], [NUL] + Frame(a[1..]));
      FindOfPrefix(NUL, b[0], [NUL] + Frame(b[1..]));
      assert a[0] == b[0];
      assert ([NUL] + Frame(a[1..]))[1..] == Frame(a[1..]) && ([NUL] + Frame(b[1..]))[1..] == Frame(b[1..]);
      FrameInjective(a[1..], b[1..]);
      assert a == [a[0]] + a[1..] && b == [b[0]] + b[1..];
    }
  }

  /** A signature for some parts verifies for other NUL-free parts only when their tags collide. */
  lemma VerifyBindsParts(c: Suite, secret: string, a: seq<string>, b: seq<string>)
    requires Sound(c) && NulFree(a) && NulFree(b) && a != b
    ensures Frame(a) != Frame(b)
    ensures Verify(c, secret, Sign(c, secret, a), b) <==> Tag(c, secret, a) == Tag(c, secret, b)
  {
    if Frame(a) == Frame(b) {
      FrameInjective(a, b);
    }
    TagIsBytes(c, secret, a);
    assert SoundCode(c, Tag(c, secret, a));
  }

  // ---------------------------------------------------------------- what is signed

  lemma {:induction false} FrameConcat(a: seq<string>, b: seq<string>)
    ensures Frame(a + b) == Frame(a) + Frame(b)
  {
    if a == [] {
      assert a + b == b && "" + Frame(b) == Frame(b);
    } else {
      FrameConcat(a[1..], b);
      assert (a + b)[1..] == a[1..] + b;
      var x, y, z := a[0], Frame(a[1..]), Frame(b);
      assert Frame(a + b) == x + ([NUL] + (y + z));
      assert x + ([NUL] + (y + z)) == (x + ([NUL] + y)) + z;
    }
  }

  /** The bytes fed to the keyed hash are those of the parts in order, a NUL after each. */
  lemma FrameIs(a: seq<string>, b: seq<string>, part: string)
    ensures Frame([]) == "" && Frame([part]) == part + [NUL] && Frame(a + b) == Frame(a) + Frame(b)
  {
    FrameConcat(a, b);
    assert [part][1..] == [] && part + ([NUL] + "") == part + [NUL];
  }

  /** A signature is the encoding of the first 16 bytes of the tag, and what verifies decodes to them. */
  lemma SignatureIs(c: Suite, secret: string, parts: seq<string>, signature: string)
    requires Sound(c)
    ensures |c.tag(secret, Frame(parts))| == 32
    ensures Sign(c, secret, parts) == c.encode(c.tag(secret, Frame(parts))[..16])
    ensures Verify(c, secret, signature, parts) <==> c.decode(signature) == Some(c.tag(secret, Frame(parts))[..16])
  {
  }
}
