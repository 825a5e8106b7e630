/**
  Text as the ledger measures it: Unicode scalar values, their UTF-8 encoding
  (RFC 3629), and what trimming and control characters mean for accepted text.
 */
module Text {
  import opened Common

  // ----- the encoding -----

  function EncodeChar(c: char): seq<nat> {
    var n := c as int;
    if n < 0x80 then [n]
    else if n < 0x800 then [0xC0 + n / 0x40, 0x80 + n % 0x40]
    else if n < 0x1_0000 then [0xE0 + n / 0x1000, 0x80 + n / 0x40 % 0x40, 0x80 + n % 0x40]
    else [0xF0 + n / 0x4_0000, 0x80 + n / 0x1000 % 0x40, 0x80 + n / 0x40 % 0x40, 0x80 + n % 0x40]
  }

  /** The bytes of a text. */
  function Utf8(s: string): seq<nat> {
    if s == [] then [] else Utf8(Init(s)) + EncodeChar(Last(s))
  }

  predicate Tail(b: nat) {
    0x80 <= b <= 0xBF
  }

  /** One character in the grammar of section 4 of RFC 3629: no overlong form, no surrogate, nothing past U+10FFFF. */
  predicate Utf8Char(b: seq<nat>) {
    || (|b| == 1 && b[0] <= 0x7F)
    || (|b| == 2 && 0xC2 <= b[0] <= 0xDF && Tail(b[1]))
    || (&& |b| == 3 && Tail(b[1]) && Tail(b[2])
        && (|| (b[0] == 0xE0 && 0xA0 <= b[1]) || 0xE1 <= b[0] <= 0xEC
            || (b[0] == 0xED && b[1] <= 0x9F) || 0xEE <= b[0] <= 0xEF))
    || (&& |b| == 4 && Tail(b[1]) && Tail(b[2]) && Tail(b[3])
        && (|| (b[0] == 0xF0 && 0x90 <= b[1]) || 0xF1 <= b[0] <= 0xF3 || (b[0] == 0xF4 && b[1] <= 0x8F)))
  }

  /** The character that a sequence of the grammar stands for. */
  function CharOf(b: seq<nat>): char
    requires Utf8Char(b)
  {
    if |b| == 1 then b[0] as char
    else if |b| == 2 then ((b[0] - 0xC0) * 0x40 + (b[1] - 0x80)) as char
    else if |b| == 3 then ((b[0] - 0xE0) * 0x1000 + (b[1] - 0x80) * 0x40 + (b[2] - 0x80)) as char
    else ((b[0] - 0xF0) * 0x4_0000 + (b[1] - 0x80) * 0x1000 + (b[2] - 0x80) * 0x40 + (b[3] - 0x80)) as char
  }

  /** How many bytes a character takes, read off its first. */
  function Width(lead: nat): nat {
    if lead < 0x80 then 1 else if lead < 0xE0 then 2 else if lead < 0xF0 then 3 else 4
  }

  /** A strict decoder: the text whose bytes these are, if any. */
  function Decode(b: seq<nat>): Option<string> {
    if b == [] then Some([])
    else
      var w := Width(b[0]);
      if w > |b| || !Utf8Char(b[..w]) then None
      else
        var rest := Decode(b[w..]);
        if rest.None? then None else Some([CharOf(b[..w])] + rest.value)
  }

  lemma Split64(q: nat, r: nat)
    requires r < 0x40
    ensures (q * 0x40 + r) / 0x40 == q && (q * 0x40 + r) % 0x40 == r
  {
  }

  /** The six-bit digits of a code point. */
  lemma Digits(n: nat)
    ensures n / 0x1000 == n / 0x40 / 0x40 && n / 0x4_0000 == n / 0x1000 / 0x40
    ensures n == n / 0x40 * 0x40 + n % 0x40
    ensures n / 0x40 == n / 0x1000 * 0x40 + n / 0x40 % 0x40
    ensures n / 0x1000 == n / 0x4_0000 * 0x40 + n / 0x1000 % 0x40
  {
    var a, b := n / 0x40, n / 0x40 / 0x40;
    assert n == 0x1000 * b + (a % 0x40 * 0x40 + n % 0x40);
    assert n == 0x4_0000 * (b / 0x40) + (b % 0x40 * 0x1000 + a % 0x40 * 0x40 + n % 0x40);
  }

  /** Every character has exactly one encoding, and it is a sequence of the grammar. */
  lemma EncodedChar(c: char)
    ensures Utf8Char(EncodeChar(c)) && CharOf(EncodeChar(c)) == c
    ensures Width(EncodeChar(c)[0]) == |EncodeChar(c)|
  {
    var n := c as int;
    Digits(n);
    if n >= 0x1_0000 {
      EncodedFour(c);
    } else if n >= 0x800 {
      EncodedThree(c);
    }
  }

  lemma EncodedThree(c: char)
    requires 0x800 <= c as int < 0x1_0000
    ensures Utf8Char(EncodeChar(c)) && CharOf(EncodeChar(c)) == c && Width(EncodeChar(c)[0]) == 3
  {
    var n := c as int;
    Digits(n);
    var a, b, d := n / 0x1000, n / 0x40 % 0x40, n % 0x40;
    assert n == a * 0x1000 + b * 0x40 + d;
    assert a == 0 ==> b >= 0x20;
    assert a == 0xD ==> b < 0x20 || n >= 0xE000;
  }

  lemma EncodedFour(c: char)
    requires 0x1_0000 <= c as int
    ensures Utf8Char(EncodeChar(c)) && CharOf(EncodeChar(c)) == c && Width(EncodeChar(c)[0]) == 4
  {
    var n := c as int;
    Digits(n);
    var a, b, d, e := n / 0x4_0000, n / 0x1000 % 0x40, n / 0x40 % 0x40, n % 0x40;
    assert n == a * 0x4_0000 + b * 0x1000 + d * 0x40 + e;
    assert a == 0 ==> b >= 0x10;
    assert a == 4 ==> b < 0x10;
  }

  lemma EncodesEverySequence(b: seq<nat>)
    requires Utf8Char(b)
    ensures EncodeChar(CharOf(b)) == b
  {
    if |b| == 2 {
      Split64(b[0] - 0xC0, b[1] - 0x80);
    } else if |b| == 3 {
      EncodesThree(b);
    } else if |b| == 4 {
      EncodesFour(b);
    }
  }

  lemma EncodesThree(b: seq<nat>)
    requires Utf8Char(b) && |b| == 3
    ensures EncodeChar(CharOf(b)) == b
  {
    var n := CharOf(b) as int;
    var q := (b[0] - 0xE0) * 0x40 + (b[1] - 0x80);
    assert n == q * 0x40 + (b[2] - 0x80) && 0x800 <= n < 0x1_0000;
    Digits(n);
    Split64(q, b[2] - 0x80);
    Split64(b[0] - 0xE0, b[1] - 0x80);
  }

  lemma EncodesFour(b: seq<nat>)
    requires Utf8Char(b) && |b| == 4
    ensures EncodeChar(CharOf(b)) == b
  {
    var n := CharOf(b) as int;
    var p := (b[0] - 0xF0) * 0x40 + (b[1] - 0x80);
    var q := p * 0x40 + (b[2] - 0x80);
    assert n == q * 0x40 + (b[3] - 0x80) && 0x1_0000 <= n;
    Digits(n);
    Split64(q, b[3] - 0x80);
    Split64(p, b[2] - 0x80);
    Split64(b[0] - 0xF0, b[1] - 0x80);
  }

  ghost predicate LexLess(a: seq<nat>, b: seq<nat>) {
    exists k :: 0 <= k < |a| && k < |b| && a[k] < b[k] && a[..k] == b[..k]
  }

  /** Byte order is code point order, so no other assignment of the grammar's sequences is possible. */
  lemma EncodingKeepsOrder(c: char, d: char)
    requires c < d
    ensures LexLess(EncodeChar(c), EncodeChar(d))
  {
    hide LexLess;
    var a, b := EncodeChar(c), EncodeChar(d);
    if |a| < |b| || |a| == 1 {
      LexLessAt(a, b, 0);
    } else if |a| == 2 {
      SmallerDigits(c as int, d as int);
      LexLessAt(a, b, if a[0] < b[0] then 0 else 1);
    } else if |a| == 3 {
      ThreeBytesKeepOrder(c, d);
    } else {
      FourBytesKeepOrder(c, d);
    }
  }

  lemma ThreeBytesKeepOrder(c: char, d: char)
    requires c < d && |EncodeChar(c)| == |EncodeChar(d)| == 3
    ensures LexLess(EncodeChar(c), EncodeChar(d))
  {
    hide LexLess;
    var a, b := EncodeChar(c), EncodeChar(d);
    Digits(c as int);
    Digits(d as int);
    SmallerDigits(c as int, d as int);
    SmallerDigits(c as int / 0x40, d as int / 0x40);
    LexLessAt(a, b, if a[0] < b[0] then 0 else if a[1] < b[1] then 1 else 2);
  }

  lemma FourBytesKeepOrder(c: char, d: char)
    requires c < d && |EncodeChar(c)| == |EncodeChar(d)| == 4
    ensures LexLess(EncodeChar(c), EncodeChar(d))
  {
    hide LexLess;
    var a, b := EncodeChar(c), EncodeChar(d);
    Digits(c as int);
    Digits(d as int);
    SmallerDigits(c as int, d as int);
    SmallerDigits(c as int / 0x40, d as int / 0x40);
    SmallerDigits(c as int / 0x1000, d as int / 0x1000);
    LexLessAt(a, b, if a[0] < b[0] then 0 else if a[1] < b[1] then 1 else if a[2] < b[2] then 2 else 3);
  }

  lemma LexLessAt(a: seq<nat>, b: seq<nat>, k: nat)
    requires k < |a| && k < |b| && a[k] < b[k] && forall i | 0 <= i < k :: a[i] == b[i]
    ensures LexLess(a, b)
  {
    assert a[..k] == b[..k];
  }

  lemma SmallerDigits(m: nat, n: nat)
    ensures m < n <==> m / 0x40 < n / 0x40 || (m / 0x40 == n / 0x40 && m % 0x40 < n % 0x40)
  {
  }

  lemma {:induction false} Utf8Concat(a: string, b: string)
    ensures Utf8(a + b) == Utf8(a) + Utf8(b)
  {
    hide EncodeChar;
    if b == [] {
      assert a + b == a;
    } else {
      Utf8Concat(a, Init(b));
      assert Init(a + b) == a + Init(b) && Last(a + b) == Last(b);
    }
  }

  lemma Utf8First(c: char, s: string)
    ensures Utf8([c] + s) == EncodeChar(c) + Utf8(s)
  {
    Utf8Concat([c], s);
    assert Init([c]) == [] && Utf8([]) == [];
  }

  lemma {:induction false} DecodesBytes(s: string)
    ensures Decode(Utf8(s)) == Some(s)
  {
    if s != [] {
      hide EncodeChar, Utf8, Utf8Char, CharOf, Width;
      assert s == [s[0]] + s[1..];
      Utf8First(s[0], s[1..]);
      EncodedChar(s[0]);
      var b, w := Utf8(s), |EncodeChar(s[0])|;
      assert b[..w] == EncodeChar(s[0]) && b[w..] == Utf8(s[1..]);
      DecodesBytes(s[1..]);
    }
  }

  lemma {:induction false} DecodedBytes(b: seq<nat>)
    requires Decode(b).Some?
    ensures Utf8(Decode(b).value) == b
  {
    if b != [] {
      hide EncodeChar, Utf8, Utf8Char, CharOf, Width;
      var w := Width(b[0]);
      DecodedBytes(b[w..]);
      EncodesEverySequence(b[..w]);
      Utf8First(CharOf(b[..w]), Decode(b[w..]).value);
    }
  }

  // ----- lengths -----

  function Utf8Len(c: char): nat {
    if c < '\U{80}' then 1 else if c < '\U{800}' then 2 else if c < '\U{10000}' then 3 else 4
  }

  /** What `str::len` counts. */
  function ByteLen(s: string): (n: nat)
    ensures n == |Utf8(s)|
  {
    if s == [] then 0 else ByteLen(Init(s)) + Utf8Len(Last(s))
  }

  /** Ascii text takes one byte per character. */
  lemma {:induction false} ByteLenAscii(s: string)
    requires forall i | 0 <= i < |s| :: s[i] < '\U{80}'
    ensures ByteLen(s) == |s|
  {
    if s != [] {
      ByteLenAscii(Init(s));
    }
  }

  lemma ByteLenConcat(a: string, b: string)
    ensures ByteLen(a + b) == ByteLen(a) + ByteLen(b)
  {
    Utf8Concat(a, b);
  }

  // ----- accepted text -----

  const MAX_TEXT := 8192

  /** Unicode `White_Space`, the set removed by `str::trim`. */
  predicate IsWhitespace(c: char) {
    || '\U{9}' <= c <= '\U{D}' || c in " \U{85}\U{A0}\U{1680}\U{2028}\U{2029}\U{202F}\U{205F}\U{3000}"
    || '\U{2000}' <= c <= '\U{200A}'
  }

  /** Unicode `Cc`. */
  predicate IsControl(c: char) {
    c < ' ' || '\U{7F}' <= c <= '\U{9F}'
  }

  function TrimStart(s: string): string {
    if s != [] && IsWhitespace(s[0]) then TrimStart(s[1..]) else s
  }

  function TrimEnd(s: string): string {
    if s != [] && IsWhitespace(Last(s)) then TrimEnd(Init(s)) else s
  }

  predicate ValidText(text: string) {
    && ByteLen(text) <= MAX_TEXT
    && TrimEnd(TrimStart(text)) != []
    && forall i | 0 <= i < |text| :: !IsControl(text[i]) || text[i] in "\n\t"
  }

  lemma {:induction false} TrimStartRemains(s: string)
    ensures TrimStart(s) != [] <==> exists c | c in s :: !IsWhitespace(c)
    ensures TrimStart(s) != [] ==> !IsWhitespace(TrimStart(s)[0])
  {
    if s != [] && IsWhitespace(s[0]) {
      TrimStartRemains(s[1..]);
      assert forall c :: c in s <==> c == s[0] || c in s[1..];
    }
  }

  lemma {:induction false} TrimEndRemains(s: string)
    requires s != [] && !IsWhitespace(s[0])
    ensures TrimEnd(s) != []
  {
    if IsWhitespace(Last(s)) {
      TrimEndRemains(Init(s));
    }
  }

  /** The 25 code points of `White_Space`. */
  const WHITE_SPACE := "\t\n\U{B}\U{C}\r \U{85}\U{A0}\U{1680}\U{2000}\U{2001}\U{2002}\U{2003}\U{2004}\U{2005}\U{2006}" +
                       "\U{2007}\U{2008}\U{2009}\U{200A}\U{2028}\U{2029}\U{202F}\U{205F}\U{3000}"

  /**
    Text is accepted exactly when its encoding has at most 8192 bytes, some character is not white
    space, and every character below U+0020 or from U+007F to U+009F is a newline or a tab.
   */
  lemma AcceptedText(text: string)
    ensures ValidText(text) <==>
            && |Utf8(text)| <= 8192
            && (exists c | c in text :: c !in WHITE_SPACE)
            && (forall c | c in text && (c as int < 0x20 || 0x7F <= c as int < 0xA0) :: c == '\n' || c == '\t')
  {
    hide IsWhitespace, IsControl, TrimStart;
    TrimStartRemains(text);
    if TrimStart(text) != [] {
      TrimEndRemains(TrimStart(text));
    }
    SomethingVisible(text);
    AllPrintable(text);
  }

  lemma SomethingVisible(text: string)
    ensures (exists c | c in text :: !IsWhitespace(c)) <==> exists c | c in text :: c !in WHITE_SPACE
  {
    hide IsWhitespace;
    forall c | c in text ensures IsWhitespace(c) <==> c in WHITE_SPACE { WhitespaceTable(c); }
  }

  lemma AllPrintable(text: string)
    ensures (forall i | 0 <= i < |text| :: !IsControl(text[i]) || text[i] in "\n\t") <==>
            forall c | c in text && (c as int < 0x20 || 0x7F <= c as int < 0xA0) :: c == '\n' || c == '\t'
  {
    assert forall i | 0 <= i < |text| :: text[i] in text;
    forall c: char
      ensures (!IsControl(c) || c in "\n\t") <==> !(c as int < 0x20 || 0x7F <= c as int < 0xA0) || c == '\n' || c == '\t'
    {
    }
  }

  lemma WhitespaceTable(c: char)
    ensures IsWhitespace(c) <==> c in WHITE_SPACE
  {
  }
}
