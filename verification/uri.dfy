/** `encodeURIComponent` over Unicode scalar values: unreserved characters stay,
    every other character becomes the percent-escapes of its UTF-8 bytes, with
    upper-case hexadecimal digits. */
module UriComponent {

  const HexDigits := "0123456789ABCDEF"

  /** The characters `encodeURIComponent` leaves alone. */
  predicate Unreserved(c: char)
  {
    || ('A' <= c <= 'Z') || ('a' <= c <= 'z') || ('0' <= c <= '9')
    || c in {'-', '_', '.', '!', '~', '*', '\'', '(', ')'}
  }

  /** The UTF-8 encoding of one scalar value. */
  function Utf8(c: char): (bytes: seq<int>)
    ensures 1 <= |bytes| <= 4
    ensures forall i :: 0 <= i < |bytes| ==> 0 <= bytes[i] < 256
    ensures |bytes| == 1 <==> (c as int) < 0x80
  {
    var n := c as int;
    if n < 0x80 then [n]
    else if n < 0x800 then [0xC0 + n / 64, 0x80 + n % 64]
    else if n < 0x10000 then [0xE0 + n / 4096, 0x80 + (n / 64) % 64, 0x80 + n % 64]
    else [0xF0 + n / 262144, 0x80 + (n / 4096) % 64, 0x80 + (n / 64) % 64, 0x80 + n % 64]
  }

  /** `%XX` for one byte. */
  function PercentByte(b: int): string
    requires 0 <= b < 256
  {
    ['%', HexDigits[b / 16], HexDigits[b % 16]]
  }

  function PercentBytes(bytes: seq<int>): (s: string)
    requires forall i :: 0 <= i < |bytes| ==> 0 <= bytes[i] < 256
    ensures |s| == 3 * |bytes|
  {
    if bytes == [] then "" else PercentByte(bytes[0]) + PercentBytes(bytes[1..])
  }

  function EncodeChar(c: char): string
  {
    if Unreserved(c) then [c] else PercentBytes(Utf8(c))
  }

  function Encode(s: string): string
  {
    if s == [] then "" else EncodeChar(s[0]) + Encode(s[1..])
  }

  /** What may appear in an encoded component. */
  predicate EncodedChar(c: char)
  {
    Unreserved(c) || c == '%' || c in HexDigits
  }

  predicate AllEncoded(s: string)
  {
    forall i :: 0 <= i < |s| ==> EncodedChar(s[i])
  }

  lemma AllEncodedAppend(a: string, b: string)
    requires AllEncoded(a) && AllEncoded(b)
    ensures AllEncoded(a + b)
  {
    forall i | 0 <= i < |a + b|
      ensures EncodedChar((a + b)[i])
    {
      if i >= |a| {
        assert (a + b)[i] == b[i - |a|];
      }
    }
  }

  lemma {:induction false} PercentBytesAlphabet(bytes: seq<int>)
    requires forall i :: 0 <= i < |bytes| ==> 0 <= bytes[i] < 256
    ensures AllEncoded(PercentBytes(bytes))
  {
    if bytes != [] {
      PercentBytesAlphabet(bytes[1..]);
      AllEncodedAppend(PercentByte(bytes[0]), PercentBytes(bytes[1..]));
    }
  }

  /** Strings of unreserved characters come out unchanged. */
  lemma {:induction false} EncodeUnreserved(s: string)
    requires forall i :: 0 <= i < |s| ==> Unreserved(s[i])
    ensures Encode(s) == s
  {
    if s != [] {
      EncodeUnreserved(s[1..]);
    }
  }

  /** Encoding works character by character. */
  lemma {:induction false} EncodeAppend(a: string, b: string)
    ensures Encode(a + b) == Encode(a) + Encode(b)
  {
    if a != [] {
      assert (a + b)[1..] == a[1..] + b;
      EncodeAppend(a[1..], b);
    } else {
      assert a + b == b;
    }
  }

  /** The output holds only unreserved characters, `%` and hexadecimal digits. */
  lemma {:induction false} EncodeAlphabet(s: string)
    ensures AllEncoded(Encode(s))
  {
    if s != [] {
      EncodeAlphabet(s[1..]);
      if !Unreserved(s[0]) {
        PercentBytesAlphabet(Utf8(s[0]));
      }
      AllEncodedAppend(EncodeChar(s[0]), Encode(s[1..]));
    }
  }

  lemma EncodedCharIsNoDelimiter(c: char)
    requires EncodedChar(c)
    ensures c !in {'/', '?', '#', '&', '='}
  {
    if c in HexDigits {
      var k :| 0 <= k < |HexDigits| && HexDigits[k] == c;
    }
  }

  /** So no `/`, `?`, `#`, `&` or `=` survives to split the URL it is placed in. */
  lemma EncodedHasNoDelimiters(s: string)
    ensures forall i :: 0 <= i < |Encode(s)| ==> Encode(s)[i] !in {'/', '?', '#', '&', '='}
  {
    EncodeAlphabet(s);
    forall i | 0 <= i < |Encode(s)|
      ensures Encode(s)[i] !in {'/', '?', '#', '&', '='}
    {
      EncodedCharIsNoDelimiter(Encode(s)[i]);
    }
  }

  lemma SlashEncoding()
    ensures Encode("/") == "%2F"
  {
    assert !Unreserved('/');
    assert Utf8('/') == [47];
    assert HexDigits[2] == '2' && HexDigits[15] == 'F';
    assert PercentByte(47) == "%2F";
    assert PercentBytes([47]) == PercentByte(47) + PercentBytes([]);
    assert Encode("/") == EncodeChar('/') + Encode("");
  }

  /** A GitLab `group/project` path loses its slash: `group%2Fproject`. */
  lemma EncodeProjectPath(group: string, project: string)
    requires forall i :: 0 <= i < |group| ==> Unreserved(group[i])
    requires forall i :: 0 <= i < |project| ==> Unreserved(project[i])
    ensures Encode(group + "/" + project) == group + "%2F" + project
  {
    EncodeAppend(group + "/", project);
    EncodeAppend(group, "/");
    EncodeUnreserved(group);
    EncodeUnreserved(project);
    SlashEncoding();
  }
}
