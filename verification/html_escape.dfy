/** `escapeHTML` of public/main.js: the five HTML-significant characters are
    replaced by character references (WHATWG HTML Living Standard, section
    13.1.4 "Character references"); every other character is copied. */
module HtmlEscape {

  const AmpRef: string := "&amp;"
  const LtRef: string := "&lt;"
  const GtRef: string := "&gt;"
  const QuotRef: string := "&quot;"
  const AposRef: string := "&#39;"

  /** The characters `escapeHTML` rewrites. */
  predicate IsSpecial(c: char)
  {
    c == '&' || c == '<' || c == '>' || c == '"' || c == '\''
  }

  /** The special characters that may never appear raw in escaped text
      (`&` may, as the start of a reference). */
  predicate IsRawMarkup(c: char)
  {
    c == '<' || c == '>' || c == '"' || c == '\''
  }

  /** `t` begins with one of the five references. */
  predicate StartsWithRef(t: string)
  {
    AmpRef <= t || LtRef <= t || GtRef <= t || QuotRef <= t || AposRef <= t
  }

  /** The shape of `escapeHTML`'s output: no raw `<`, `>`, `"` or `'`, and
      every `&` opens one of the five references. */
  predicate IsEscaped(t: string)
  {
    && (forall i :: 0 <= i < |t| ==> !IsRawMarkup(t[i]))
    && (forall i :: 0 <= i < |t| && t[i] == '&' ==> StartsWithRef(t[i..]))
  }

  /** The replacement table of `escapeHTML`. */
  function EscapeChar(c: char): (r: string)
    ensures IsSpecial(c) ==> StartsWithRef(r)
    ensures !IsSpecial(c) ==> r == [c]
    ensures forall i :: 0 < i < |r| ==> !IsSpecial(r[i])
  {
    if c == '&' then AmpRef
    else if c == '<' then LtRef
    else if c == '>' then GtRef
    else if c == '"' then QuotRef
    else if c == '\'' then AposRef
    else [c]
  }

  /** `escapeHTML(str)`: each character of `s`, in order, replaced by its
      reference when it is special. The output never contains raw markup. */
  function Escape(s: string): (r: string)
    ensures IsEscaped(r)
    ensures |r| >= |s|
    decreases |s|
  {
    if s == [] then []
    else
      var e := EscapeChar(s[0]);
      var rest := Escape(s[1..]);
      EscapedConcat(e, rest);
      e + rest
  }

  /** A reference (or a plain character) followed by escaped text is escaped. */
  lemma EscapedConcat(e: string, rest: string)
    requires e != []
    requires !IsRawMarkup(e[0]) && (e[0] == '&' ==> StartsWithRef(e + rest))
    requires forall i :: 0 < i < |e| ==> !IsSpecial(e[i])
    requires IsEscaped(rest)
    ensures IsEscaped(e + rest)
  {
    var t := e + rest;
    forall i | 0 <= i < |t| && t[i] == '&'
      ensures StartsWithRef(t[i..])
    {
      if i >= |e| {
        assert t[i..] == rest[i - |e|..];
        assert rest[i - |e|] == '&';
      }
    }
  }

  /** Decodes the five references and copies every other character; the
      partner of `Escape`. */
  function Unescape(t: string): (r: string)
    ensures |r| <= |t|
    decreases |t|
  {
    if t == [] then []
    else if AmpRef <= t then "&" + Unescape(t[|AmpRef|..])
    else if LtRef <= t then "<" + Unescape(t[|LtRef|..])
    else if GtRef <= t then ">" + Unescape(t[|GtRef|..])
    else if QuotRef <= t then "\"" + Unescape(t[|QuotRef|..])
    else if AposRef <= t then "'" + Unescape(t[|AposRef|..])
    else [t[0]] + Unescape(t[1..])
  }

  /** Decoding a character's replacement, followed by anything, yields that
      character first. */
  lemma UnescapeEscapeChar(c: char, rest: string)
    ensures Unescape(EscapeChar(c) + rest) == [c] + Unescape(rest)
  {
    var t := EscapeChar(c) + rest;
    if c == '&' {
      assert AmpRef <= t && t[|AmpRef|..] == rest;
    } else if c == '<' {
      assert t[1] == 'l' && !(AmpRef <= t);
      assert LtRef <= t && t[|LtRef|..] == rest;
    } else if c == '>' {
      assert t[1] == 'g' && !(AmpRef <= t) && !(LtRef <= t);
      assert GtRef <= t && t[|GtRef|..] == rest;
    } else if c == '"' {
      assert t[1] == 'q' && !(AmpRef <= t) && !(LtRef <= t) && !(GtRef <= t);
      assert QuotRef <= t && t[|QuotRef|..] == rest;
    } else if c == '\'' {
      assert t[1] == '#' && !(AmpRef <= t) && !(LtRef <= t) && !(GtRef <= t) && !(QuotRef <= t);
      assert AposRef <= t && t[|AposRef|..] == rest;
    } else {
      assert t[0] == c && t[1..] == rest;
    }
  }

  /** Round trip: decoding the escaped text gives back the input exactly. */
  lemma {:induction false} UnescapeEscape(s: string)
    ensures Unescape(Escape(s)) == s
    decreases |s|
  {
    if s != [] {
      UnescapeEscapeChar(s[0], Escape(s[1..]));
      UnescapeEscape(s[1..]);
    }
  }

  /** Every suffix of escaped text is escaped. */
  lemma EscapedSuffix(t: string, k: nat)
    requires IsEscaped(t) && k <= |t|
    ensures IsEscaped(t[k..])
  {
    var u := t[k..];
    forall i | 0 <= i < |u| && u[i] == '&'
      ensures StartsWithRef(u[i..])
    {
      assert t[k + i] == '&';
      assert u[i..] == t[k + i..];
    }
  }

  /** The first character `Unescape` decodes from `t`, and how many
      characters of `t` encode it. */
  function Head(t: string): (h: (char, nat))
    requires t != []
  {
    if AmpRef <= t then ('&', |AmpRef|)
    else if LtRef <= t then ('<', |LtRef|)
    else if GtRef <= t then ('>', |GtRef|)
    else if QuotRef <= t then ('"', |QuotRef|)
    else if AposRef <= t then ('\'', |AposRef|)
    else (t[0], 1)
  }

  /** The five entries of the replacement table. */
  lemma EscapeCharTable()
    ensures EscapeChar('&') == AmpRef && EscapeChar('<') == LtRef && EscapeChar('>') == GtRef
    ensures EscapeChar('"') == QuotRef && EscapeChar('\'') == AposRef
  {
  }

  /** Escaped text starts with the escaping of its first decoded character. */
  lemma HeadSplit(t: string)
    requires t != [] && !IsRawMarkup(t[0]) && (t[0] == '&' ==> StartsWithRef(t))
    ensures 1 <= Head(t).1 <= |t|
    ensures t[..Head(t).1] == EscapeChar(Head(t).0)
    ensures Unescape(t) == [Head(t).0] + Unescape(t[Head(t).1..])
  {
    if StartsWithRef(t) {
      HeadRef(t);
    } else {
      assert !IsSpecial(t[0]);
      assert EscapeChar(t[0]) == [t[0]];
      assert t[..1] == [t[0]];
    }
  }

  /** `HeadSplit` when `t` begins with a reference. */
  lemma HeadRef(t: string)
    requires StartsWithRef(t)
    ensures 1 <= Head(t).1 <= |t|
    ensures t[..Head(t).1] == EscapeChar(Head(t).0)
  {
    EscapeCharTable();
    if AmpRef <= t {
      assert t[..|AmpRef|] == AmpRef;
    } else if LtRef <= t {
      assert t[..|LtRef|] == LtRef;
    } else if GtRef <= t {
      assert t[..|GtRef|] == GtRef;
    } else if QuotRef <= t {
      assert t[..|QuotRef|] == QuotRef;
    } else {
      assert t[..|AposRef|] == AposRef;
    }
  }

  /** The other direction: every escaped text is the escaping of its decoding,
      so `Escape` maps strings one-to-one onto the escaped texts. */
  lemma {:induction false} EscapeUnescape(t: string)
    requires IsEscaped(t)
    ensures Escape(Unescape(t)) == t
    decreases |t|
  {
    if t != [] {
      var (c, n) := Head(t);
      assert t[0..] == t;
      HeadSplit(t);
      EscapedSuffix(t, n);
      EscapeUnescape(t[n..]);
      var u := [c] + Unescape(t[n..]);
      assert u[0] == c && u[1..] == Unescape(t[n..]);
      assert t == t[..n] + t[n..];
    }
  }

  /** Escaping distributes over concatenation, so order is preserved. */
  lemma {:induction false} EscapeAppend(a: string, b: string)
    ensures Escape(a + b) == Escape(a) + Escape(b)
    decreases |a|
  {
    if a == [] {
      assert a + b == b;
    } else {
      assert (a + b)[0] == a[0];
      assert (a + b)[1..] == a[1..] + b;
      EscapeAppend(a[1..], b);
      calc {
        Escape(a + b);
        EscapeChar(a[0]) + Escape(a[1..] + b);
        EscapeChar(a[0]) + (Escape(a[1..]) + Escape(b));
        (EscapeChar(a[0]) + Escape(a[1..])) + Escape(b);
      }
    }
  }

  /** Text without special characters passes through unchanged. */
  lemma {:induction false} EscapePassThrough(s: string)
    requires forall i :: 0 <= i < |s| ==> !IsSpecial(s[i])
    ensures Escape(s) == s
    decreases |s|
  {
    if s != [] {
      EscapePassThrough(s[1..]);
    }
  }

  /** Different inputs never escape to the same text. */
  lemma EscapeInjective(a: string, b: string)
    requires Escape(a) == Escape(b)
    ensures a == b
  {
    UnescapeEscape(a);
    UnescapeEscape(b);
  }
}
