/** Personalisation of public/main.js: the visitor's record (or the text already
    on the page) becomes slide 2 as a title plus an optional bullet list, and
    slide 9 as plain text. */
module SlideText {
  import opened Js
  import opened HtmlEscape

  /** `safeText`: strings pass, every other value becomes the empty string. */
  function SafeText(v: JsValue): (r: string)
    ensures v.Str? ==> r == v.s
    ensures !v.Str? ==> r == ""
  {
    if v.Str? then v.s else ""
  }

  /** `safeText(rec?.slide2 ?? fallback)`: the fallback replaces only a missing
      record or a `null`/`undefined` field; a present empty string is kept,
      and a present non-string becomes the empty string. */
  function RawText(field: JsValue, fallback: string): (r: string)
    ensures Nullish(field) ==> r == fallback
    ensures field.Str? ==> r == field.s
    ensures !Nullish(field) && !field.Str? ==> r == ""
  {
    SafeText(if Nullish(field) then Str(fallback) else field)
  }

  // ---------------------------------------------------------------------------
  // `split("\n")` and its inverse `join("\n")`

  /** `s.split("\n")`: the newline-free pieces between the newlines of `s`. */
  function Split(s: string): (r: seq<string>)
    ensures |r| >= 1
    ensures forall i :: 0 <= i < |r| ==> '\n' !in r[i]
    decreases |s|
  {
    if s == [] then [""]
    else if s[0] == '\n' then [""] + Split(s[1..])
    else
      var t := Split(s[1..]);
      [[s[0]] + t[0]] + t[1..]
  }

  /** `parts.join("\n")`. */
  function Join(parts: seq<string>): string
    decreases |parts|
  {
    if parts == [] then ""
    else if |parts| == 1 then parts[0]
    else parts[0] + "\n" + Join(parts[1..])
  }

  /** Joining the pieces of `s` gives back `s`. */
  lemma {:induction false} JoinSplit(s: string)
    ensures Join(Split(s)) == s
    decreases |s|
  {
    if s != [] {
      JoinSplit(s[1..]);
      var t := Split(s[1..]);
      if s[0] == '\n' {
        assert s == "\n" + s[1..];
      } else if |t| == 1 {
        assert s == [s[0]] + s[1..];
      } else {
        var r := [[s[0]] + t[0]] + t[1..];
        assert r[1..] == t[1..];
        assert s == [s[0]] + s[1..];
        assert Join(t) == t[0] + "\n" + Join(t[1..]);
      }
    }
  }

  /** Splitting text that starts with a newline-free prefix `p`. */
  lemma {:induction false} SplitPrefix(p: string, rest: string)
    requires '\n' !in p
    ensures Split(p + rest) == [p + Split(rest)[0]] + Split(rest)[1..]
    decreases |p|
  {
    if p != [] {
      assert (p + rest)[0] == p[0];
      assert (p + rest)[1..] == p[1..] + rest;
      SplitPrefix(p[1..], rest);
      var T := Split(rest);
      var t' := Split(p[1..] + rest);
      assert t'[0] == p[1..] + T[0] && t'[1..] == T[1..];
      assert p[0] != '\n';
      assert Split(p + rest) == [[p[0]] + t'[0]] + t'[1..];
      assert [p[0]] + (p[1..] + T[0]) == p + T[0];
    } else {
      assert p + rest == rest;
      var t := Split(rest);
      assert t == [t[0]] + t[1..];
      assert p + t[0] == t[0];
    }
  }

  /** Splitting the join of newline-free pieces gives back the pieces. */
  lemma {:induction false} SplitJoin(parts: seq<string>)
    requires |parts| >= 1
    requires forall i :: 0 <= i < |parts| ==> '\n' !in parts[i]
    ensures Split(Join(parts)) == parts
    decreases |parts|
  {
    if |parts| == 1 {
      SplitPrefix(parts[0], "");
      assert parts[0] + "" == parts[0];
    } else {
      var j := Join(parts[1..]);
      SplitJoin(parts[1..]);
      assert parts[0] + "\n" + j == parts[0] + ("\n" + j);
      SplitPrefix(parts[0], "\n" + j);
      assert ("\n" + j)[0] == '\n' && ("\n" + j)[1..] == j;
      assert parts[0] + "" == parts[0];
      assert parts == [parts[0]] + parts[1..];
    }
  }

  /** A newline-joined text is blank exactly when each piece is. */
  lemma {:induction false} BlankJoin(parts: seq<string>)
    ensures Blank(Join(parts)) <==> forall i :: 0 <= i < |parts| ==> Blank(parts[i])
    decreases |parts|
  {
    if |parts| > 1 {
      BlankJoin(parts[1..]);
      var j := Join(parts[1..]);
      var t := parts[0] + "\n" + j;
      if Blank(t) {
        assert forall k :: 0 <= k < |parts[0]| ==> t[k] == parts[0][k];
        assert forall k :: 0 <= k < |j| ==> t[|parts[0]| + 1 + k] == j[k];
        forall i | 0 <= i < |parts| ensures Blank(parts[i]) {
          if i > 0 { assert parts[i] == parts[1..][i - 1]; }
        }
      }
      if forall i :: 0 <= i < |parts| ==> Blank(parts[i]) {
        assert Blank(parts[0]);
        assert forall i :: 0 <= i < |parts[1..]| ==> Blank(parts[1..][i]);
        forall k | 0 <= k < |t| ensures IsSpace(t[k]) {
          if k < |parts[0]| {
            assert t[k] == parts[0][k];
          } else if k > |parts[0]| {
            assert t[k] == j[k - |parts[0]| - 1];
          }
        }
      }
    }
  }

  // ---------------------------------------------------------------------------
  // The slide-2 lines

  /** `.map((s) => s.trim())`. */
  function TrimAll(ps: seq<string>): (r: seq<string>)
    ensures |r| == |ps|
    ensures forall i :: 0 <= i < |ps| ==> r[i] == Trim(ps[i])
  {
    Map(Trim, ps)
  }

  /** `ps.map(f)`. */
  function Map(f: string -> string, ps: seq<string>): (r: seq<string>)
    ensures |r| == |ps|
    ensures forall i :: 0 <= i < |ps| ==> r[i] == f(ps[i])
  {
    seq(|ps|, i requires 0 <= i < |ps| => f(ps[i]))
  }

  /** Mapping distributes over concatenation. */
  lemma MapAppend(f: string -> string, x: seq<string>, y: seq<string>)
    ensures Map(f, x + y) == Map(f, x) + Map(f, y)
  {
    var l := Map(f, x + y);
    var r := Map(f, x) + Map(f, y);
    forall i | 0 <= i < |l| ensures l[i] == r[i] {
      if i < |x| {
        assert (x + y)[i] == x[i];
      } else {
        assert (x + y)[i] == y[i - |x|];
      }
    }
  }

  /** `.filter(Boolean)` on strings: the non-empty ones, in order. */
  function DropEmpty(ps: seq<string>): (r: seq<string>)
    ensures forall i :: 0 <= i < |r| ==> r[i] != "" && r[i] in ps
    ensures forall i :: 0 <= i < |ps| && ps[i] != "" ==> ps[i] in r
    ensures r == [] <==> forall i :: 0 <= i < |ps| ==> ps[i] == ""
    ensures |ps| == 1 ==> r == (if ps[0] == "" then [] else ps)
    decreases |ps|
  {
    if ps == [] then []
    else if ps[0] == "" then DropEmpty(ps[1..])
    else [ps[0]] + DropEmpty(ps[1..])
  }

  /** Filtering keeps the relative order of the two halves of a sequence. */
  lemma {:induction false} DropEmptyAppend(a: seq<string>, b: seq<string>)
    ensures DropEmpty(a + b) == DropEmpty(a) + DropEmpty(b)
    decreases |a|
  {
    if a == [] {
      assert a + b == b;
    } else {
      assert (a + b)[0] == a[0] && (a + b)[1..] == a[1..] + b;
      DropEmptyAppend(a[1..], b);
    }
  }

  /** The non-blank lines of the text, trimmed, in their original order. */
  function Lines(raw: string): (r: seq<string>)
    ensures forall i :: 0 <= i < |r| ==> r[i] != "" && Trim(r[i]) == r[i] && '\n' !in r[i]
    ensures r == [] <==> Blank(raw)
  {
    var pieces := Split(raw);
    LinesAreTrimmed(pieces);
    LinesEmptyIffBlank(raw);
    DropEmpty(TrimAll(pieces))
  }

  /** Each kept line is trimmed and newline-free. */
  lemma LinesAreTrimmed(pieces: seq<string>)
    requires forall i :: 0 <= i < |pieces| ==> '\n' !in pieces[i]
    ensures var r := DropEmpty(TrimAll(pieces));
      forall i :: 0 <= i < |r| ==> Trim(r[i]) == r[i] && '\n' !in r[i]
  {
    var r := DropEmpty(TrimAll(pieces));
    forall i | 0 <= i < |r|
      ensures Trim(r[i]) == r[i] && '\n' !in r[i]
    {
      var k :| 0 <= k < |pieces| && r[i] == TrimAll(pieces)[k];
      TrimIdempotent(pieces[k]);
      TrimSubset(pieces[k]);
    }
  }

  /** Trimming never introduces a character. */
  lemma TrimSubset(s: string)
    ensures forall c :: c in Trim(s) ==> c in s
  {
    var i := LeadingSpaces(s);
    var r := Trim(s);
    forall c | c in r ensures c in s {
      var j :| 0 <= j < |r| && r[j] == c;
      assert s[i + j] == c;
    }
  }

  /** No line survives exactly when the text is blank. */
  lemma LinesEmptyIffBlank(raw: string)
    ensures DropEmpty(TrimAll(Split(raw))) == [] <==> Blank(raw)
  {
    var pieces := Split(raw);
    JoinSplit(raw);
    BlankJoin(pieces);
    forall k | 0 <= k < |pieces|
      ensures Trim(pieces[k]) == "" <==> Blank(pieces[k])
    {
      TrimEmptyIffBlank(pieces[k]);
    }
  }

  /** Joining two non-empty lists of pieces puts a newline between their
      joins. */
  lemma {:induction false} JoinAppend(x: seq<string>, y: seq<string>)
    requires |x| >= 1 && |y| >= 1
    ensures Join(x + y) == Join(x) + "\n" + Join(y)
    decreases |x|
  {
    assert (x + y)[0] == x[0];
    if |x| == 1 {
      assert (x + y)[1..] == y;
    } else {
      assert (x + y)[1..] == x[1..] + y;
      JoinAppend(x[1..], y);
      assert x[0] + "\n" + (Join(x[1..]) + "\n" + Join(y)) == (x[0] + "\n" + Join(x[1..])) + "\n" + Join(y);
    }
  }

  /** Splitting at a newline splits each side separately. */
  lemma SplitAppend(a: string, b: string)
    ensures Split(a + "\n" + b) == Split(a) + Split(b)
  {
    var x := Split(a);
    var y := Split(b);
    JoinSplit(a);
    JoinSplit(b);
    JoinAppend(x, y);
    assert forall i :: 0 <= i < |x + y| ==> (x + y)[i] in x || (x + y)[i] in y;
    SplitJoin(x + y);
  }

  /** The lines of two newline-separated texts are the lines of the first
      followed by those of the second. */
  lemma LinesAppend(a: string, b: string)
    ensures Lines(a + "\n" + b) == Lines(a) + Lines(b)
  {
    var x := Split(a);
    var y := Split(b);
    SplitAppend(a, b);
    TrimAllAppend(x, y);
    DropEmptyAppend(TrimAll(x), TrimAll(y));
    assert Lines(a + "\n" + b) == DropEmpty(TrimAll(x + y));
  }

  /** Trimming each piece distributes over concatenation. */
  lemma TrimAllAppend(x: seq<string>, y: seq<string>)
    ensures TrimAll(x + y) == TrimAll(x) + TrimAll(y)
  {
    MapAppend(Trim, x, y);
  }

  /** A text without newlines has no line when it is blank and otherwise
      the one trimmed line. Together with `LinesAppend` this pins down
      `Lines` on every text. */
  lemma LinesOfLine(s: string)
    requires '\n' !in s
    ensures Lines(s) == if Blank(s) then [] else [Trim(s)]
  {
    SplitJoin([s]);
    assert Join([s]) == s;
    assert TrimAll([s]) == [Trim(s)];
    TrimEmptyIffBlank(s);
  }

  // ---------------------------------------------------------------------------
  // The slide-2 markup

  /** What slide 2 shows: a title line and the remaining lines as items. */
  datatype Doc = Doc(title: string, items: seq<string>)

  /** A non-empty sequence is its head followed by its tail. */
  lemma HeadTail(s: seq<string>)
    requires s != []
    ensures [s[0]] + s[1..] == s
  {
  }

  /** Slide 2's outline: none for blank text; otherwise the first line is the
      title and the remaining lines, in order, are the items. */
  function Outline(raw: string): (r: Option<Doc>)
    ensures r.None? <==> Blank(raw)
    ensures r.Some? ==> [r.value.title] + r.value.items == Lines(raw)
  {
    var ls := Lines(raw);
    if ls == [] then None
    else
      HeadTail(ls);
      Some(Doc(ls[0], ls[1..]))
  }

  const DivOpen: string := "<div class=\"text-body-1\">"
  const DivClose: string := "</div>"
  const UlOpen: string := "<ul class=\"why-list text-body-1\">"
  const UlClose: string := "</ul>"
  const LiOpen: string := "<li>"
  const LiClose: string := "</li>"

  /** The `<li>` elements of the list, each holding one escaped item. */
  function ListItems(items: seq<string>): string
    decreases |items|
  {
    if items == [] then ""
    else LiOpen + Escape(items[0]) + LiClose + ListItems(items[1..])
  }

  /** The markup the page assigns to slide 2 for an outline: the escaped
      title in a `<div>`, then a `<ul>` only when there are items. */
  function Render(d: Doc): (r: string)
    ensures d.items == [] <==> r == DivOpen + Escape(d.title) + DivClose
  {
    DivOpen + Escape(d.title) + DivClose
    + (if d.items == [] then "" else UlOpen + ListItems(d.items) + UlClose)
  }

  /** The slide-2 formatter: the markup for the text's outline, or the empty
      content when the text is blank. Reading the markup back recovers the
      trimmed non-blank lines exactly, the first as title. */
  function Format(raw: string): (html: string)
    ensures html == "" <==> Blank(raw)
    ensures html != "" ==>
      && Lines(raw) != []
      && ReadBack(html) == Some(Doc(Lines(raw)[0], Lines(raw)[1..]))
    ensures html != "" ==> (|Lines(raw)| == 1 <==> html == DivOpen + Escape(Lines(raw)[0]) + DivClose)
  {
    match Outline(raw)
    case None => ""
    case Some(d) =>
      ReadBackRender(d);
      assert Lines(raw) == [d.title] + d.items;
      Render(d)
  }

  // ---------------------------------------------------------------------------
  // Reading the markup back (the partner of `Render`)

  /** Length of the longest prefix of `t` without `<`. */
  function TextRun(t: string): (n: nat)
    ensures n <= |t|
    ensures forall k :: 0 <= k < n ==> t[k] != '<'
    ensures n < |t| ==> t[n] == '<'
    decreases |t|
  {
    if t == [] || t[0] == '<' then 0 else 1 + TextRun(t[1..])
  }

  /** Escaped text ends exactly where the next tag begins. */
  lemma TextRunEscaped(x: string, rest: string)
    requires rest == [] || rest[0] == '<'
    ensures TextRun(Escape(x) + rest) == |Escape(x)|
  {
    var e := Escape(x);
    var t := e + rest;
    assert forall k :: 0 <= k < |e| ==> t[k] == e[k] && !IsRawMarkup(e[k]);
    assert |e| < |t| ==> t[|e|] == rest[0];
  }

  /** Parses the `<li>` elements up to the closing `</ul>`; each element's
      text must have the shape `escapeHTML` produces. */
  function ReadItems(t: string): Option<seq<string>>
    decreases |t|
  {
    if t == UlClose then Some([])
    else if !(LiOpen <= t) then None
    else
      var a := t[|LiOpen|..];
      var n := TextRun(a);
      var b := a[n..];
      if !(LiClose <= b) || !IsEscaped(a[..n]) then None
      else
        match ReadItems(b[|LiClose|..])
        case None => None
        case Some(rest) => Some([Unescape(a[..n])] + rest)
  }

  /** Parses slide-2 markup back into its outline; every text must have the
      shape `escapeHTML` produces, and a `<ul>` must hold at least one item,
      as the page never writes an empty one. */
  function ReadBack(h: string): Option<Doc>
  {
    if !(DivOpen <= h) then None
    else
      var a := h[|DivOpen|..];
      var n := TextRun(a);
      var b := a[n..];
      if !(DivClose <= b) || !IsEscaped(a[..n]) then None
      else
        var c := b[|DivClose|..];
        if c == [] then Some(Doc(Unescape(a[..n]), []))
        else if !(UlOpen <= c) then None
        else
          match ReadItems(c[|UlOpen|..])
          case None => None
          case Some(items) => if items == [] then None else Some(Doc(Unescape(a[..n]), items))
  }

  /** String concatenation is associative. */
  lemma Associative(a: string, b: string, c: string)
    ensures (a + b) + c == a + (b + c)
  {
  }

  /** What follows a prefix is the rest. */
  lemma DropPrefix(a: string, b: string)
    ensures a <= a + b && (a + b)[..|a|] == a && (a + b)[|a|..] == b
  {
  }

  /** One element `open + Escape(x) + close` followed by `rest`: the text run
      is the escaped `x` and what follows `close` is `rest`. */
  lemma ReadElement(open: string, x: string, close: string, rest: string)
    requires close != [] && close[0] == '<'
    ensures var t := open + Escape(x) + close + rest;
      var a := t[|open|..];
      var n := TextRun(a);
      && open <= t
      && a == Escape(x) + (close + rest)
      && n == |Escape(x)|
      && a[..n] == Escape(x)
      && a[n..] == close + rest
      && close <= a[n..]
      && a[n..][|close|..] == rest
  {
    var e := Escape(x);
    var t := open + e + close + rest;
    Associative(open + e, close, rest);
    Associative(open, e, close + rest);
    assert t == open + (e + (close + rest));
    DropPrefix(open, e + (close + rest));
    DropPrefix(e, close + rest);
    DropPrefix(close, rest);
    TextRunEscaped(x, close + rest);
  }

  /** Reading one `<li>` element in front of `rest` adds its item in front
      of what `rest` reads as. */
  lemma ReadItemsCons(x: string, rest: string)
    ensures var t := LiOpen + Escape(x) + LiClose + rest;
      ReadItems(rest).Some? ==> ReadItems(t) == Some([x] + ReadItems(rest).value)
  {
    var t := LiOpen + Escape(x) + LiClose + rest;
    ReadElement(LiOpen, x, LiClose, rest);
    assert t[1] == 'l';
    assert t != UlClose;
    UnescapeEscape(x);
  }

  /** Reading the rendered list gives back the items. */
  lemma {:induction false} ReadItemsRender(items: seq<string>)
    ensures ReadItems(ListItems(items) + UlClose) == Some(items)
    decreases |items|
  {
    if items == [] {
      assert ListItems(items) + UlClose == UlClose;
    } else {
      var rest := ListItems(items[1..]) + UlClose;
      var head := LiOpen + Escape(items[0]) + LiClose;
      ReadItemsRender(items[1..]);
      ReadItemsCons(items[0], rest);
      assert ListItems(items) == head + ListItems(items[1..]);
      Associative(head, ListItems(items[1..]), UlClose);
      HeadTail(items);
    }
  }

  /** The list part of the markup reads back as the items. */
  lemma ReadTail(items: seq<string>)
    requires items != []
    ensures var c := UlOpen + ListItems(items) + UlClose;
      c != [] && UlOpen <= c && ReadItems(c[|UlOpen|..]) == Some(items)
  {
    var c := UlOpen + ListItems(items) + UlClose;
    var l := ListItems(items) + UlClose;
    assert c == UlOpen + l;
    DropPrefix(UlOpen, l);
    ReadItemsRender(items);
  }

  /** A string with prefix `p` is `p` followed by the rest. */
  lemma PrefixSplit(p: string, t: string)
    requires p <= t
    ensures t == p + t[|p|..]
  {
  }

  /** A string cut as `open`, a run of `n` characters, `close` and the rest
      is the concatenation of those parts. */
  lemma Recompose(open: string, close: string, t: string, n: nat)
    requires open <= t && n <= |t| - |open| && close <= t[|open|..][n..]
    ensures var a := t[|open|..];
      t == open + a[..n] + close + a[n..][|close|..]
  {
    var a := t[|open|..];
    var b := a[n..];
    PrefixSplit(open, t);
    PrefixSplit(close, b);
    assert a == a[..n] + b;
    Associative(open, a[..n], b);
    Associative(open + a[..n], close, b[|close|..]);
  }

  /** One accepted `<li>` element: the text run is the escaping of the item
      read, and the element is followed by the rest of the list. */
  lemma ReadItemsStep(t: string)
    requires ReadItems(t).Some? && t != UlClose
    ensures var a := t[|LiOpen|..];
      var n := TextRun(a);
      var tail := a[n..][|LiClose|..];
      && ReadItems(tail).Some?
      && ReadItems(t).value == [Unescape(a[..n])] + ReadItems(tail).value
      && Escape(Unescape(a[..n])) == a[..n]
      && t == LiOpen + a[..n] + LiClose + tail
  {
    var a := t[|LiOpen|..];
    var n := TextRun(a);
    assert IsEscaped(a[..n]);
    EscapeUnescape(a[..n]);
    Recompose(LiOpen, LiClose, t, n);
  }

  /** The reader accepts only rendered lists: whatever it reads is the
      list it came from. */
  lemma {:induction false} ReadItemsSound(t: string)
    ensures ReadItems(t).Some? ==> ListItems(ReadItems(t).value) + UlClose == t
    decreases |t|
  {
    if ReadItems(t).Some? && t != UlClose {
      var a := t[|LiOpen|..];
      var n := TextRun(a);
      var tail := a[n..][|LiClose|..];
      ReadItemsStep(t);
      ReadItemsSound(tail);
      var items := ReadItems(t).value;
      var rest := ReadItems(tail).value;
      HeadTail(items);
      assert items[0] == Unescape(a[..n]) && items[1..] == rest;
      var head := LiOpen + a[..n] + LiClose;
      assert ListItems(items) == head + ListItems(rest);
      Associative(head, ListItems(rest), UlClose);
    }
  }

  /** An accepted title: the markup is the title div, holding the escaping
      of the title read, followed by the list part. */
  lemma ReadBackStep(h: string)
    ensures ReadBack(h).Some? ==> var a := h[|DivOpen|..];
      var n := TextRun(a);
      var c := a[n..][|DivClose|..];
      var d := ReadBack(h).value;
      && h == DivOpen + Escape(d.title) + DivClose + c
      && (c == [] ==> d.items == [])
      && (c != [] ==> UlOpen <= c && ReadItems(c[|UlOpen|..]) == Some(d.items) && d.items != [])
  {
    if ReadBack(h).Some? {
      var a := h[|DivOpen|..];
      var n := TextRun(a);
      assert IsEscaped(a[..n]);
      EscapeUnescape(a[..n]);
      Recompose(DivOpen, DivClose, h, n);
    }
  }

  /** The reader accepts only rendered markup: whatever `h` reads as, `h` is
      that outline's rendering. With `ReadBackRender`, reading back is the
      exact inverse of rendering. */
  lemma ReadBackSound(h: string)
    ensures ReadBack(h).Some? ==> Render(ReadBack(h).value) == h
  {
    if ReadBack(h).Some? {
      var d := ReadBack(h).value;
      var a := h[|DivOpen|..];
      var c := a[TextRun(a)..][|DivClose|..];
      ReadBackStep(h);
      if c != [] {
        ReadItemsSound(c[|UlOpen|..]);
        PrefixSplit(UlOpen, c);
        Associative(UlOpen, ListItems(d.items), UlClose);
      }
    }
  }

  /** Markup that reads back as a text's kept lines is exactly the markup
      the formatter writes for that text: every title and item in it is
      escaped, and nothing else fits. */
  lemma FormatDetermined(raw: string, h: string)
    ensures Outline(raw).Some? ==> (ReadBack(h) == Outline(raw) <==> h == Format(raw))
  {
    ReadBackSound(h);
    ReadBackSound(Format(raw));
  }

  /** An empty list after the title is not markup the page writes. */
  lemma ReadBackRejectsEmptyList(t: string)
    ensures ReadBack(DivOpen + Escape(t) + DivClose + UlOpen + UlClose) == None
  {
    var h := DivOpen + Escape(t) + DivClose + UlOpen + UlClose;
    var tail := UlOpen + UlClose;
    Associative(DivOpen + Escape(t) + DivClose, UlOpen, UlClose);
    ReadElement(DivOpen, t, DivClose, tail);
    DropPrefix(UlOpen, UlClose);
    assert ReadItems(UlClose) == Some([]);
  }

  /** Round trip: the rendered markup reads back as the outline it came from. */
  lemma ReadBackRender(d: Doc)
    ensures Render(d) != ""
    ensures ReadBack(Render(d)) == Some(d)
  {
    var tail := if d.items == [] then "" else UlOpen + ListItems(d.items) + UlClose;
    var h := Render(d);
    assert h == DivOpen + Escape(d.title) + DivClose + tail;
    assert h[0] == '<';
    ReadElement(DivOpen, d.title, DivClose, tail);
    UnescapeEscape(d.title);
    if d.items != [] {
      ReadTail(d.items);
    }
  }

  // ---------------------------------------------------------------------------
  // initPersonalization

  /** A visitor's record in the lookup table: field name to value. */
  type Record = map<string, JsValue>

  /** What ends up in the two personalised regions: slide 2 holds markup
      on success and plain text after a failure; slide 9 always holds text. */
  datatype Content = Markup(html: string) | Text(text: string)
  datatype Personalized = Personalized(slide2: Content, slide9: string)

  /** `(id && db[id]) || null`: an absent or empty id selects no record. */
  function Lookup(id: Option<string>, db: map<string, Record>): (r: Option<Record>)
    ensures r.Some? ==> id.Some? && id.value != "" && id.value in db && r.value == db[id.value]
    ensures id.Some? && id.value != "" && id.value in db ==> r.Some?
  {
    if id.Some? && id.value != "" && id.value in db then Some(db[id.value]) else None
  }

  /** `rec?.field`: `undefined` for a missing record or a missing field. */
  function Field(rec: Option<Record>, name: string): JsValue
  {
    if rec.Some? && name in rec.value then rec.value[name] else Undefined
  }

  /** `initPersonalization` after the lookup table was fetched (`db` is `None`
      when the fetch, the status check or the JSON parse failed). */
  function Personalize(id: Option<string>, db: Option<map<string, Record>>,
                       fallback2: string, fallback9: string): (r: Personalized)
    ensures db.None? ==> r == Personalized(Text(fallback2), fallback9)
    ensures db.Some? ==> r.slide2.Markup?
    ensures db.Some? && Lookup(id, db.value).None? ==>
      r == Personalized(Markup(Format(fallback2)), fallback9)
    ensures db.Some? && Field(Lookup(id, db.value), "slide2").Str? ==>
      r.slide2 == Markup(Format(Field(Lookup(id, db.value), "slide2").s))
    ensures db.Some? && Field(Lookup(id, db.value), "slide9").Str? ==>
      r.slide9 == Field(Lookup(id, db.value), "slide9").s
    ensures db.Some? && Nullish(Field(Lookup(id, db.value), "slide2")) ==> r.slide2 == Markup(Format(fallback2))
    ensures db.Some? && Nullish(Field(Lookup(id, db.value), "slide9")) ==> r.slide9 == fallback9
    ensures db.Some? ==> var f := Field(Lookup(id, db.value), "slide2");
      !Nullish(f) && !f.Str? ==> r.slide2 == Markup("")
    ensures db.Some? ==> var f := Field(Lookup(id, db.value), "slide9");
      !Nullish(f) && !f.Str? ==> r.slide9 == ""
  {
    match db
    case None => Personalized(Text(fallback2), fallback9)
    case Some(table) =>
      var rec := Lookup(id, table);
      var raw2 := RawText(Field(rec, "slide2"), fallback2);
      var raw9 := RawText(Field(rec, "slide9"), fallback9);
      Personalized(Markup(Format(raw2)), raw9)
  }

  /** Once the table is fetched, slide 2 is empty exactly when the chosen
      text is blank, and otherwise its markup reads back as that text's
      first line with the remaining lines as items. */
  lemma PersonalizeReadsBack(id: Option<string>, table: map<string, Record>, fallback2: string, fallback9: string)
    ensures var raw := RawText(Field(Lookup(id, table), "slide2"), fallback2);
      var html := Personalize(id, Some(table), fallback2, fallback9).slide2.html;
      && (html == "" <==> Blank(raw))
      && (html != "" ==> ReadBack(html) == Some(Doc(Lines(raw)[0], Lines(raw)[1..])))
  {
  }
}
