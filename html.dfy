/**
 * The teacher dashboard's `escapeHtml`: `null`/`undefined` become the empty string; otherwise `&`
 * is replaced first, then `"`, `<` and `>`, each by its character entity. The four passes amount
 * to encoding each character on its own, so the output holds no raw `"`, `<` or `>` and decoding
 * the four entities gives the input back.
 */
module Html {
  import opened Wrappers
  import opened Text

  /** `escapeHtml(s)`, with `None` standing for `null` and `undefined`. */
  function EscapeHtml(s: Option<string>): string {
    match s
    case None => ""
    case Some(t) => Passes(t)
  }

  /** The four global replacements of `escapeHtml`, `&` first, then `"`, `<` and `>`. */
  function Passes(t: string): string {
    ReplaceAll(ReplaceAll(ReplaceAll(ReplaceAll(t, '&', "&amp;"), '"', "&quot;"), '<', "&lt;"), '>', "&gt;")
  }

  /** The entity one character stands for in the escaped text. */
  function EncodeChar(c: char): string {
    if c == '&' then "&amp;"
    else if c == '"' then "&quot;"
    else if c == '<' then "&lt;"
    else if c == '>' then "&gt;"
    else [c]
  }

  /** Character-by-character encoding: the reference the chained replacements are checked against. */
  function Encode(s: string): (r: string)
    ensures forall i :: 0 <= i < |r| ==> r[i] != '"' && r[i] != '<' && r[i] != '>'
    decreases |s|
  {
    if s == [] then "" else EncodeChar(s[0]) + Encode(s[1..])
  }

  /** Decodes `&amp;`, `&quot;`, `&lt;` and `&gt;`; every other character stands for itself. */
  function Decode(s: string): string
    decreases |s|
  {
    if s == [] then ""
    else if "&amp;" <= s then "&" + Decode(s[5..])
    else if "&quot;" <= s then "\"" + Decode(s[6..])
    else if "&lt;" <= s then "<" + Decode(s[4..])
    else if "&gt;" <= s then ">" + Decode(s[4..])
    else [s[0]] + Decode(s[1..])
  }

  lemma PassesAppend(a: string, b: string)
    ensures Passes(a + b) == Passes(a) + Passes(b)
  {
    var a1, b1 := ReplaceAll(a, '&', "&amp;"), ReplaceAll(b, '&', "&amp;");
    ReplaceAllAppend(a, b, '&', "&amp;");
    var a2, b2 := ReplaceAll(a1, '"', "&quot;"), ReplaceAll(b1, '"', "&quot;");
    ReplaceAllAppend(a1, b1, '"', "&quot;");
    var a3, b3 := ReplaceAll(a2, '<', "&lt;"), ReplaceAll(b2, '<', "&lt;");
    ReplaceAllAppend(a2, b2, '<', "&lt;");
    ReplaceAllAppend(a3, b3, '>', "&gt;");
  }

  lemma ReplaceOne(c: char, x: char, t: string)
    ensures ReplaceAll([c], x, t) == if c == x then t else [c]
  {
    assert [c][1..] == [];
  }

  lemma PassesChar(c: char)
    ensures Passes([c]) == EncodeChar(c)
  {
    var s1 := ReplaceAll([c], '&', "&amp;");
    ReplaceOne(c, '&', "&amp;");
    var s2 := ReplaceAll(s1, '"', "&quot;");
    if c == '&' {
      ReplaceAllAbsent(s1, '"', "&quot;");
    } else {
      ReplaceOne(c, '"', "&quot;");
    }
    var s3 := ReplaceAll(s2, '<', "&lt;");
    if c == '<' {
      ReplaceOne(c, '<', "&lt;");
    } else {
      ReplaceAllAbsent(s2, '<', "&lt;");
    }
    if c == '>' {
      ReplaceOne(c, '>', "&gt;");
    } else {
      ReplaceAllAbsent(s3, '>', "&gt;");
    }
  }

  /** The four chained replacements, `&` first, encode each character on its own. */
  lemma {:induction false} EscapeHtmlPerChar(s: string)
    ensures EscapeHtml(Some(s)) == Encode(s)
    decreases |s|
  {
    if s != [] {
      assert s == [s[0]] + s[1..];
      PassesAppend([s[0]], s[1..]);
      PassesChar(s[0]);
      EscapeHtmlPerChar(s[1..]);
    }
  }

  /** Escaped text contains no raw `"`, `<` or `>`; null and undefined give the empty string. */
  lemma EscapeHtmlNoMarkup(s: Option<string>)
    ensures s.None? ==> EscapeHtml(s) == ""
    ensures forall i :: 0 <= i < |EscapeHtml(s)| ==> EscapeHtml(s)[i] !in "\"<>"
  {
    if s.Some? {
      EscapeHtmlPerChar(s.value);
    }
  }

  /** Decoding an encoded character followed by any text gives the character, then decodes the text. */
  lemma DecodeEncodeChar(c: char, rest: string)
    ensures Decode(EncodeChar(c) + rest) == [c] + Decode(rest)
  {
    var t := EncodeChar(c) + rest;
    if c == '&' {
      assert t[..5] == "&amp;" && t[5..] == rest;
    } else if c == '"' {
      assert t[1] == 'q' && t[..6] == "&quot;" && t[6..] == rest;
    } else if c == '<' {
      assert t[1] == 'l' && t[..4] == "&lt;" && t[4..] == rest;
    } else if c == '>' {
      assert t[1] == 'g' && t[..4] == "&gt;" && t[4..] == rest;
    } else {
      assert t[0] == c && t[1..] == rest;
    }
  }

  /** Decoding undoes character-by-character encoding. */
  lemma {:induction false} DecodeEncode(s: string)
    ensures Decode(Encode(s)) == s
    decreases |s|
  {
    if s != [] {
      DecodeEncode(s[1..]);
      DecodeEncodeChar(s[0], Encode(s[1..]));
      assert [s[0]] + s[1..] == s;
    }
  }

  /** Decoding the four entities in escaped text gives back the original text. */
  lemma EscapeHtmlRoundTrip(s: string)
    ensures Decode(EscapeHtml(Some(s))) == s
  {
    EscapeHtmlPerChar(s);
    DecodeEncode(s);
  }
}
