/** `StringUtil`: invisible strings that carry numbers, quoting of geometry
    and texture names, and identifier sanitising. */
module StringUtil {
  import opened Wrappers
  import opened JavaLang
  import opened PackPipeline

  /** The section sign that precedes every carried byte. */
  const SectionSign: char := '\U{00A7}'

  /** `bits` after `k` arithmetic shifts right by 8. */
  function Shifted(bits: int, k: nat): (r: int)
    ensures bits >= 0 ==> r >= 0
  {
    if k == 0 then bits else Shifted(bits, k - 1) / 256
  }

  /** `(char) (bits & 0xFF)` after `k` shifts: the k-th lowest byte of the
      two's-complement value. */
  function ByteAt(bits: int, k: nat): (b: Byte)
  {
    Shifted(bits, k) % 256
  }

  /** The string `encodeLong` builds: four pairs of a section sign and a byte,
      lowest byte first. */
  function EncodedLong(bits: int): (s: string)
    ensures |s| == 8
    ensures forall k :: 0 <= k < 4 ==> s[2 * k] == SectionSign && s[2 * k + 1] == ByteAt(bits, k) as char
  {
    [SectionSign, ByteAt(bits, 0) as char, SectionSign, ByteAt(bits, 1) as char,
     SectionSign, ByteAt(bits, 2) as char, SectionSign, ByteAt(bits, 3) as char]
  }

  /** `encodeLong`: a char array filled by shifting, then each char appended
      after a section sign. */
  method EncodeLong(bits: Int64) returns (s: string)
    ensures s == EncodedLong(bits)
  {
    var chars := new char[4];
    var b: int := bits;
    var i := 0;
    while i < 4
      invariant 0 <= i <= 4
      invariant b == Shifted(bits, i)
      invariant forall j :: 0 <= j < i ==> chars[j] == ByteAt(bits, j) as char
    {
      chars[i] := (b % 256) as char;
      b := b / 256;
      i := i + 1;
    }
    s := [];
    i := 0;
    while i < 4
      invariant 0 <= i <= 4
      invariant |s| == 2 * i
      invariant forall k :: 0 <= k < i ==> s[2 * k] == SectionSign && s[2 * k + 1] == chars[k]
    {
      s := s + [SectionSign, chars[i]];
      i := i + 1;
    }
  }

  /** `encodeUUID`: the two halves of the UUID, most significant first. */
  function EncodedUuid(u: Uuid): (s: string)
    ensures |s| == 16
    ensures s[..8] == EncodedLong(u.msb) && s[8..] == EncodedLong(u.lsb)
  {
    EncodedLong(u.msb) + EncodedLong(u.lsb)
  }

  /** Reads back the value carried by an invisible string of 8 chars. */
  function DecodedLow32(s: string): (n: nat)
    requires |s| == 8
  {
    Low8(s[1]) + 256 * Low8(s[3]) + 65536 * Low8(s[5]) + 16777216 * Low8(s[7])
  }

  function Low8(c: char): (b: nat)
    ensures b < 256
  {
    (c as int) % 256
  }

  lemma Mod32Unique(a: int, q: int, r: int)
    requires a == TWO_32 * q + r && 0 <= r < TWO_32
    ensures a % TWO_32 == r
  {
  }

  /** `encodeLong` keeps exactly the low 32 bits: reading its string back
      gives `bits` modulo 2^32, whatever the upper half held. */
  lemma EncodedLongCarriesLow32(bits: int)
    ensures DecodedLow32(EncodedLong(bits)) == bits % TWO_32
  {
    var s0, s1, s2, s3 := Shifted(bits, 0), Shifted(bits, 1), Shifted(bits, 2), Shifted(bits, 3);
    var s4 := Shifted(bits, 4);
    assert s0 == 256 * s1 + ByteAt(bits, 0);
    assert s1 == 256 * s2 + ByteAt(bits, 1);
    assert s2 == 256 * s3 + ByteAt(bits, 2);
    assert s3 == 256 * s4 + ByteAt(bits, 3);
    var low := ByteAt(bits, 0) + 256 * ByteAt(bits, 1) + 65536 * ByteAt(bits, 2) + 16777216 * ByteAt(bits, 3);
    assert bits == TWO_32 * s4 + low;
    var e := EncodedLong(bits);
    assert Low8(e[1]) == ByteAt(bits, 0) && Low8(e[3]) == ByteAt(bits, 1);
    assert Low8(e[5]) == ByteAt(bits, 2) && Low8(e[7]) == ByteAt(bits, 3);
    Mod32Unique(bits, s4, low);
  }

  /** A UUID's invisible string carries the low 32 bits of each half. */
  lemma EncodedUuidCarries(u: Uuid)
    ensures DecodedLow32(EncodedUuid(u)[..8]) == u.msb % TWO_32
    ensures DecodedLow32(EncodedUuid(u)[8..]) == u.lsb % TWO_32
  {
    EncodedLongCarriesLow32(u.msb);
    EncodedLongCarriesLow32(u.lsb);
  }

  // --------------------------------------------------------- identifiers

  /** One char of `makeIdentifierValueSafe`: ':' becomes '/', then any char
      outside the valid set becomes '_'. */
  function SafeChar(c: char, valid: char -> bool): (r: char)
    ensures r != ':'
    ensures r == '_' || valid(r)
  {
    var d := if c == ':' then '/' else c;
    if valid(d) then d else '_'
  }

  /** `makeIdentifierValueSafe`, with the valid value characters given. */
  function MakeIdentifierValueSafe(s: string, valid: char -> bool): (r: string)
    requires !valid(':')
    ensures |r| == |s|
    ensures ':' !in r
    ensures forall i :: 0 <= i < |s| ==> r[i] == SafeChar(s[i], valid)
  {
    seq(|s|, i requires 0 <= i < |s| => SafeChar(s[i], valid))
  }

  /** Sanitising twice is sanitising once when '_' itself is valid. */
  lemma MakeIdentifierValueSafeIdempotent(s: string, valid: char -> bool)
    requires !valid(':') && valid('_')
    ensures MakeIdentifierValueSafe(MakeIdentifierValueSafe(s, valid), valid) == MakeIdentifierValueSafe(s, valid)
  {
  }

  // ------------------------------------------------------------- quoting

  /** `\w` in a Java regex: an ASCII letter, digit or '_'. */
  predicate IsWordChar(c: char) {
    ('a' <= c <= 'z') || ('A' <= c <= 'Z') || ('0' <= c <= '9') || c == '_'
  }

  /** The length of the run of word chars starting at `i`. */
  function WordRun(s: string, i: nat): (n: nat)
    requires i <= |s|
    ensures i + n <= |s|
    ensures forall k :: i <= k < i + n ==> IsWordChar(s[k])
    ensures i + n == |s| || !IsWordChar(s[i + n])
    decreases |s| - i
  {
    if i == |s| || !IsWordChar(s[i]) then 0 else 1 + WordRun(s, i + 1)
  }

  /** The names the pattern accepts before the dot. */
  predicate IsPrefixWord(w: string) {
    w == "geometry" || w == "texture" || w == "Geometry" || w == "Texture"
  }

  /** `\b(geometry|texture|Geometry|Texture)\.\w+\b` matched at `i`: a word
      boundary, one of the names, a dot and the longest run of word chars
      (which always ends on a boundary). Gives the end of the match. This
      is the `Pattern` of Java 19 and later, where `\b` is ASCII like `\w`;
      on Java 17 and 18 `\b` also counts Unicode letters and digits as word
      characters, so a name next to one, as in `geometry.abcé`, does not
      match there. */
  function MatchAt(s: string, i: nat): (r: Option<nat>)
    requires i <= |s|
    ensures r.Some? ==> i < r.value <= |s|
  {
    if i > 0 && IsWordChar(s[i - 1]) then None
    else
      var n := if i + 8 <= |s| && IsPrefixWord(s[i..i + 8]) then 8
               else if i + 7 <= |s| && IsPrefixWord(s[i..i + 7]) then 7
               else 0;
      if n == 0 || i + n >= |s| || s[i + n] != '.' then None
      else
        var w := WordRun(s, i + n + 1);
        if w == 0 then None else Some(i + n + 1 + w)
  }

  /** The text `addQuote` produces for `s[i..]`: the matches found from
      left to right wrapped in single quotes, the rest copied. */
  function QuoteFrom(s: string, i: nat): (r: string)
    requires i <= |s|
    decreases |s| - i
  {
    if i == |s| then []
    else match MatchAt(s, i)
      case Some(e) => "'" + s[i..e] + "'" + QuoteFrom(s, e)
      case None => [s[i]] + QuoteFrom(s, i + 1)
  }

  /** The loop keeps `result + input[lastIndex..pos] + QuoteFrom(input, pos)`
      equal to the whole quoted text; a match moves both indices past it. */
  lemma QuoteAfterMatch(input: string, result: string, lastIndex: nat, pos: nat, e: nat)
    requires lastIndex <= pos < |input| && MatchAt(input, pos) == Some(e)
    ensures (result + input[lastIndex..pos] + "'" + input[pos..e] + "'") + input[e..e] + QuoteFrom(input, e)
      == result + input[lastIndex..pos] + QuoteFrom(input, pos)
  {
    QuoteFromMatched(input, pos, e);
    Regroup(result + input[lastIndex..pos], "'", input[pos..e], input[e..e], QuoteFrom(input, e));
  }

  /** Regrouping a concatenation around an empty piece. */
  lemma Regroup<T>(a: seq<T>, q: seq<T>, m: seq<T>, empty: seq<T>, rest: seq<T>)
    requires empty == []
    ensures (a + q + m + q) + empty + rest == a + (q + m + q + rest)
  {
  }

  /** No match at `pos` moves `pos` on by one and copies that char later. */
  lemma QuoteAfterNone(input: string, result: string, lastIndex: nat, pos: nat)
    requires lastIndex <= pos < |input| && MatchAt(input, pos).None?
    ensures result + input[lastIndex..pos + 1] + QuoteFrom(input, pos + 1)
      == result + input[lastIndex..pos] + QuoteFrom(input, pos)
  {
    assert input[lastIndex..pos + 1] == input[lastIndex..pos] + [input[pos]];
  }

  /** `addQuote`: the matcher loop, appending the text between matches and
      each match in quotes. */
  method AddQuote(input: string) returns (result: string)
    ensures result == QuoteFrom(input, 0)
  {
    result := [];
    var lastIndex := 0;
    var pos := 0;
    while pos < |input|
      invariant 0 <= lastIndex <= pos <= |input|
      invariant result + input[lastIndex..pos] + QuoteFrom(input, pos) == QuoteFrom(input, 0)
      decreases |input| - pos
    {
      var m := MatchAt(input, pos);
      if m.Some? {
        QuoteAfterMatch(input, result, lastIndex, pos, m.value);
        result := result + input[lastIndex..pos] + "'" + input[pos..m.value] + "'";
        lastIndex := m.value;
        pos := m.value;
      } else {
        QuoteAfterNone(input, result, lastIndex, pos);
        pos := pos + 1;
      }
    }
    assert input[lastIndex..pos] + QuoteFrom(input, pos) == input[lastIndex..];
    result := result + input[lastIndex..];
  }

  /** The text with every single quote removed. */
  function Unquote(s: string): (r: string)
    ensures |r| <= |s|
  {
    if s == [] then [] else (if s[0] == '\'' then [] else [s[0]]) + Unquote(s[1..])
  }

  lemma {:induction false} UnquoteAppend(a: string, b: string)
    ensures Unquote(a + b) == Unquote(a) + Unquote(b)
  {
    if a == [] {
      assert a + b == b;
    } else {
      assert (a + b)[0] == a[0];
      assert (a + b)[1..] == a[1..] + b;
      UnquoteAppend(a[1..], b);
    }
  }

  lemma {:induction false} UnquotePlain(s: string)
    requires '\'' !in s
    ensures Unquote(s) == s
  {
    if s != [] {
      UnquotePlain(s[1..]);
    }
  }

  /** `addQuote` only inserts quotes: removing them from its result gives
      back an input that had none. */
  lemma {:induction false} QuoteFromUnquotes(s: string, i: nat)
    requires i <= |s| && '\'' !in s
    ensures Unquote(QuoteFrom(s, i)) == s[i..]
    decreases |s| - i
  {
    if i < |s| {
      var m := MatchAt(s, i);
      if m.Some? {
        var e := m.value;
        QuoteFromUnquotes(s, e);
        QuoteFromMatched(s, i, e);
        QuotedUnquotes(s[i..e], QuoteFrom(s, e));
        assert s[i..] == s[i..e] + s[e..];
      } else {
        QuoteFromUnquotes(s, i + 1);
        QuoteFromUnmatched(s, i);
        UnquoteAppend([s[i]], QuoteFrom(s, i + 1));
        assert s[i..] == [s[i]] + s[i + 1..];
      }
    }
  }

  /** Quoting a quote-free text and removing the quotes gives it back. */
  lemma QuotedUnquotes(a: string, b: string)
    requires '\'' !in a
    ensures Unquote("'" + a + "'" + b) == a + Unquote(b)
  {
    var q := "'";
    assert Unquote(q) == [] by {
      assert q[1..] == [];
    }
    calc {
      Unquote(q + a + q + b);
      { UnquoteAppend(q + a + q, b); }
      Unquote(q + a + q) + Unquote(b);
      { UnquoteAppend(q + a, q); }
      Unquote(q + a) + Unquote(b);
      { UnquoteAppend(q, a); UnquotePlain(a); }
      a + Unquote(b);
    }
  }

  /** Input with no match anywhere comes back unchanged. */
  lemma {:induction false} QuoteFromNoMatch(s: string, i: nat)
    requires i <= |s|
    requires forall k :: i <= k < |s| ==> MatchAt(s, k).None?
    ensures QuoteFrom(s, i) == s[i..]
    decreases |s| - i
  {
    if i < |s| {
      QuoteFromNoMatch(s, i + 1);
      assert s[i..] == [s[i]] + s[i + 1..];
    }
  }

  lemma QuoteFromMatched(s: string, i: nat, e: nat)
    requires i < |s| && MatchAt(s, i) == Some(e)
    ensures QuoteFrom(s, i) == "'" + s[i..e] + "'" + QuoteFrom(s, e)
  {
  }

  lemma QuoteFromUnmatched(s: string, i: nat)
    requires i < |s| && MatchAt(s, i).None?
    ensures QuoteFrom(s, i) == [s[i]] + QuoteFrom(s, i + 1)
  {
  }

  /** Where the pattern does and does not match in `a geometry.cube`. */
  lemma GeometryTokenMatches(s: string)
    requires s == "a geometry.cube"
    ensures MatchAt(s, 0).None? && MatchAt(s, 1).None? && MatchAt(s, 2) == Some(15)
  {
    assert s[0..8][0] == 'a' && s[0..7][0] == 'a';
    assert s[1..9][0] == ' ' && s[1..8][0] == ' ';
    assert s[2..10] == "geometry";
    assert WordRun(s, 15) == 0;
    assert WordRun(s, 14) == 1;
    assert WordRun(s, 13) == 2;
    assert WordRun(s, 12) == 3;
    assert WordRun(s, 11) == 4;
  }

  lemma GeometryTokenQuoted(s: string)
    requires s == "a geometry.cube"
    ensures QuoteFrom(s, 2) == "'geometry.cube'"
  {
    GeometryTokenMatches(s);
    QuoteFromMatched(s, 2, 15);
    assert s[2..15] == "geometry.cube";
  }

  /** A concrete case: the token in `a geometry.cube` is quoted. */
  lemma QuotesGeometryToken(s: string)
    requires s == "a geometry.cube"
    ensures QuoteFrom(s, 0) == "a 'geometry.cube'"
  {
    GeometryTokenMatches(s);
    GeometryTokenQuoted(s);
    QuoteFromTwoUnmatched(s);
    assert [s[0], s[1]] == "a ";
  }

  /** Two unmatched characters at the front are copied as they are. */
  lemma QuoteFromTwoUnmatched(s: string)
    requires |s| >= 2 && MatchAt(s, 0).None? && MatchAt(s, 1).None?
    ensures QuoteFrom(s, 0) == [s[0], s[1]] + QuoteFrom(s, 2)
  {
    QuoteFromUnmatched(s, 1);
    QuoteFromUnmatched(s, 0);
  }
}
