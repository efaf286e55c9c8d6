/** Percent-encoding of URL paths as Go's net/url does it (section 2.1 of RFC 3986):
    a path in its decoded form and, where it differs from the default encoding, in
    the encoded form it came in. */
module UrlEscape {
  import opened Wrappers

  type Byte = x: int | 0 <= x < 256
  type Bytes = seq<Byte>

  const PERCENT: Byte := 37
  const SLASH: Byte := 47
  const STAR: Byte := 42
  const DOT: Byte := 46
  const BACKSLASH: Byte := 92

  datatype UrlPath = UrlPath(path: Bytes, rawPath: Bytes)

  function Hex(d: int): Byte
    requires 0 <= d < 16
  {
    if d < 10 then 48 + d else 65 + d - 10
  }

  function Unhex(b: Byte): Option<int>
    ensures Unhex(b).Some? ==> 0 <= Unhex(b).value < 16
  {
    if 48 <= b <= 57 then Some(b - 48)
    else if 65 <= b <= 70 then Some(b - 55)
    else if 97 <= b <= 102 then Some(b - 87)
    else None
  }

  predicate Unreserved(b: Byte) {
    || 48 <= b <= 57 || 65 <= b <= 90 || 97 <= b <= 122
    || b == 45 || b == 95 || b == 46 || b == 126 // - _ . ~
  }

  /** Bytes that stay as they are in a path: the unreserved ones and $ & + , / : ; = @ */
  predicate Kept(b: Byte) {
    Unreserved(b) || b in [36, 38, 43, 44, 47, 58, 59, 61, 64]
  }

  /** Bytes an encoded path may consist of; besides the kept ones, ! ' ( ) * [ ] and % */
  predicate Encodable(b: Byte) {
    Kept(b) || b in [33, 39, 40, 41, 42, 91, 93, 37]
  }

  predicate ValidEncoded(s: Bytes) {
    forall i :: 0 <= i < |s| ==> Encodable(s[i])
  }

  function EscapeByte(b: Byte): Bytes {
    if Kept(b) then [b] else [PERCENT, Hex(b / 16), Hex(b % 16)]
  }

  function Escape(s: Bytes): Bytes {
    if s == [] then [] else EscapeByte(s[0]) + Escape(s[1..])
  }

  /** How many bytes encode the first decoded byte, when they do. */
  function Unit(s: Bytes): (n: nat)
    requires s != []
    ensures n > 0
  {
    if s[0] == PERCENT then 3 else 1
  }

  function DecodeUnit(s: Bytes): (b: Option<Byte>)
    requires s != []
    ensures b.Some? ==> Unit(s) <= |s|
  {
    if s[0] != PERCENT then Some(s[0])
    else if |s| < 3 || Unhex(s[1]).None? || Unhex(s[2]).None? then None
    else Some(Unhex(s[1]).value * 16 + Unhex(s[2]).value)
  }

  function Unescape(s: Bytes): Option<Bytes> {
    if s == [] then Some([])
    else
      match DecodeUnit(s)
      case None => None
      case Some(b) =>
        match Unescape(s[Unit(s)..])
        case None => None
        case Some(rest) => Some([b] + rest)
  }

  function EscapedPath(u: UrlPath): Bytes {
    if u.rawPath != [] && ValidEncoded(u.rawPath) && Unescape(u.rawPath) == Some(u.path) then u.rawPath
    else if u.path == [STAR] then [STAR]
    else Escape(u.path)
  }

  // ---- Encoding and decoding -----------------------------------------------

  lemma HexRoundTrip(b: Byte)
    ensures Unhex(Hex(b / 16)) == Some(b / 16) && Unhex(Hex(b % 16)) == Some(b % 16)
  {
  }

  /** The first unit of a concatenation. */
  lemma UnitOfConcat(x: Bytes, y: Bytes)
    requires x != [] && DecodeUnit(x).Some?
    ensures (x + y)[0] == x[0] && DecodeUnit(x + y) == DecodeUnit(x) && Unit(x + y) == Unit(x) <= |x|
    ensures (x + y)[Unit(x)..] == x[Unit(x)..] + y
  {
  }

  lemma UnescapeHead(s: Bytes)
    requires s != [] && DecodeUnit(s).Some?
    ensures Unescape(s)
            == match Unescape(s[Unit(s)..]) case None => None case Some(rest) => Some([DecodeUnit(s).value] + rest)
  {
  }

  lemma HeadDecodes(s: Bytes)
    requires s != [] && Unescape(s).Some?
    ensures DecodeUnit(s).Some?
  {
  }

  /** Decoding distributes over concatenation. */
  lemma {:induction false} UnescapeConcat(x: Bytes, y: Bytes)
    requires Unescape(x).Some?
    ensures Unescape(y).Some? ==> Unescape(x + y) == Some(Unescape(x).value + Unescape(y).value)
    ensures Unescape(y).None? ==> Unescape(x + y).None?
  {
    if x == [] {
      assert x + y == y;
      if Unescape(y).Some? {
        assert [] + Unescape(y).value == Unescape(y).value;
      }
    } else {
      hide Unescape, DecodeUnit, Unit;
      HeadDecodes(x);
      UnitOfConcat(x, y);
      UnescapeHead(x);
      UnescapeHead(x + y);
      UnescapeConcat(x[Unit(x)..], y);
      if Unescape(y).Some? {
        var b, rest, d := DecodeUnit(x).value, Unescape(x[Unit(x)..]).value, Unescape(y).value;
        assert [b] + (rest + d) == ([b] + rest) + d;
      }
    }
  }

  lemma EscapeByteDecodes(b: Byte)
    ensures Unescape(EscapeByte(b)) == Some([b]) && ValidEncoded(EscapeByte(b))
  {
    HexRoundTrip(b);
    var s := EscapeByte(b);
    assert s[Unit(s)..] == [];
    assert DecodeUnit(s) == Some(b);
    assert Unescape([]) == Some([]);
    assert [b] + [] == [b];
  }

  predicate StandsForItself(c: char) {
    'A' <= c <= 'Z' || 'a' <= c <= 'z' || '0' <= c <= '9' || c in "-_.~$&+,/:;=@"
  }

  lemma KeptExactly(b: Byte)
    ensures Kept(b) <==> StandsForItself(b as char)
  {
    var c, text := b as char, "-_.~$&+,/:;=@";
    assert c in text <==> exists i :: 0 <= i < |text| && text[i] == c;
  }

  /** Bytes an encoded path may have besides those: ! ' ( ) * [ ] and % */
  lemma EncodableExactly(b: Byte)
    ensures Encodable(b) <==> StandsForItself(b as char) || b as char in "!'()*[]%"
  {
    hide Kept, StandsForItself;
    KeptExactly(b);
    var c, text := b as char, "!'()*[]%";
    assert c in text <==> exists i :: 0 <= i < |text| && text[i] == c;
  }

  /** Hexadecimal digits of either case are read, and nothing else. */
  lemma UnhexExactly(b: Byte)
    ensures forall d :: 0 <= d < 16 ==>
                          (Unhex(b) == Some(d)
                           <==> b == "0123456789ABCDEF"[d] as int || b == "0123456789abcdef"[d] as int)
    ensures Unhex(b).Some? ==> 0 <= Unhex(b).value < 16
  {
  }

  /** A byte is written as itself exactly when it is a letter, a digit or one of
      - _ . ~ $ & + , / : ; = @ and otherwise as a percent sign and two upper-case
      hexadecimal digits. */
  lemma EscapesExactly(b: Byte)
    ensures EscapeByte(b)
            == if StandsForItself(b as char) then [b]
               else ['%' as int, "0123456789ABCDEF"[b / 16] as int, "0123456789ABCDEF"[b % 16] as int]
  {
    hide Kept, StandsForItself, Hex;
    KeptExactly(b);
    HexText(b / 16);
    HexText(b % 16);
  }

  lemma HexText(d: int)
    requires 0 <= d < 16
    ensures Hex(d) == "0123456789ABCDEF"[d] as int
  {
  }

  /** Round trip: the default encoding decodes to the path. */
  lemma {:induction false} EscapeDecodes(s: Bytes)
    ensures Unescape(Escape(s)) == Some(s) && ValidEncoded(Escape(s))
  {
    if s != [] {
      EscapeDecodes(s[1..]);
      EscapeByteDecodes(s[0]);
      UnescapeConcat(EscapeByte(s[0]), Escape(s[1..]));
      assert [s[0]] + s[1..] == s;
    }
  }

  /** Main result. Whatever the raw path is, the encoded path consists of encodable
      bytes and decodes to the path. */
  lemma EscapedPathDecodes(u: UrlPath)
    ensures Unescape(EscapedPath(u)) == Some(u.path) && ValidEncoded(EscapedPath(u))
  {
    EscapeDecodes(u.path);
    if EscapedPath(u) == [STAR] {
      assert [STAR][1..] == [];
    }
  }

  /** The encoded form that came in is used exactly when it is one of the path; otherwise
      the path is encoded anew, except for the lone star. */
  lemma EncodedFormIsKeptExactlyWhen(u: UrlPath)
    requires u.rawPath != []
    ensures var own := Unescape(u.rawPath) == Some(u.path) && forall b :: b in u.rawPath ==> Encodable(b);
            && (own ==> EscapedPath(u) == u.rawPath)
            && (!own ==> EscapedPath(u) == if u.path == ['*' as int] then ['*' as int] else Escape(u.path))
  {
    assert forall i :: 0 <= i < |u.rawPath| ==> u.rawPath[i] in u.rawPath;
  }

  lemma {:induction false} EscapeConcat(x: Bytes, y: Bytes)
    ensures Escape(x + y) == Escape(x) + Escape(y)
  {
    if x == [] {
      assert x + y == y;
    } else {
      assert (x + y)[1..] == x[1..] + y;
      EscapeConcat(x[1..], y);
    }
  }

  // ---- Skipping decoded bytes ----------------------------------------------

  /** What is left of an encoded path after its first n decoded bytes. */
  function Rest(s: Bytes, n: nat): Bytes {
    if n == 0 || s == [] || |s| < Unit(s) then s else Rest(s[Unit(s)..], n - 1)
  }

  lemma {:induction false} RestDecodes(s: Bytes, n: nat)
    requires Unescape(s).Some? && n <= |Unescape(s).value|
    ensures Unescape(Rest(s, n)) == Some(Unescape(s).value[n..])
    ensures |Rest(s, n)| <= |s| && s[|s| - |Rest(s, n)|..] == Rest(s, n)
  {
    if n > 0 {
      var b, rest := DecodeUnit(s).value, Unescape(s[Unit(s)..]).value;
      RestDecodes(s[Unit(s)..], n - 1);
      assert ([b] + rest)[n..] == rest[n - 1..];
    }
  }

  lemma {:induction false} RestOfConcat(x: Bytes, y: Bytes)
    requires Unescape(x).Some?
    ensures Rest(x + y, |Unescape(x).value|) == y
  {
    if x == [] {
      assert x + y == y;
    } else {
      UnitOfConcat(x, y);
      RestOfConcat(x[Unit(x)..], y);
    }
  }

  lemma RestStep(s: Bytes)
    requires Unescape(s).Some? && Unescape(s).value != []
    ensures s != [] && Unit(s) <= |s| && Rest(s, 1) == s[Unit(s)..]
    ensures Unescape(s[Unit(s)..]) == Some(Unescape(s).value[1..])
    ensures DecodeUnit(s) == Some(Unescape(s).value[0])
  {
    assert Rest(s[Unit(s)..], 0) == s[Unit(s)..];
  }

  lemma {:induction false} RestAdds(s: Bytes, m: nat, n: nat)
    ensures Rest(Rest(s, m), n) == Rest(s, m + n)
  {
    if m > 0 && s != [] && |s| >= Unit(s) {
      RestAdds(s[Unit(s)..], m - 1, n);
    }
  }
}
