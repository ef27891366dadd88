/** `detect_watermarks` (app.py:98-133): normalize quotes and dashes, count
    every catalog character of the normalized text into a stats map, and
    replace each one by a `<span class="watermark" ...>U+XXXX</span>` marker. */
module Detector {
  import opened Strings
  import opened Catalog
  import opened Labels
  import opened Typography

  /** One value of `watermark_stats` (app.py:120-124). */
  datatype Stat = Stat(description: string, count: nat, unicode: string)

  const MarkerOpen: string := "<span class=\"watermark\" title=\""

  /** The marker of app.py:130 for character `c` with description `d`. */
  function MarkerOf(c: char, d: string): string
  {
    Span(d, Label(c))
  }

  /** The span with title `d (l)` and content `l`. */
  function Span(d: string, l: string): string
  {
    MarkerOpen + d + " (" + l + ")\">" + l + "</span>"
  }

  /** What the marking loop does to one character of the normalized text. */
  function MarkChar(x: char): string
  {
    if IsWatermark(x) then MarkerOf(x, Describe(x)) else [x]
  }

  /** The marked text: every character mapped on its own. */
  function Mark(s: string): string
  {
    FlatMap(MarkChar, s)
  }

  /** The stats map of the normalized text `n`: one entry per catalog
      character occurring in `n`. */
  function StatsOf(n: string): map<char, Stat>
  {
    map c | c in Keys(Watermarks) && c in n :: Stat(Describe(c), Count(n, c), Label(c))
  }

  /** A marker is made of inert characters only, so it contains no catalog
      character and a later iteration of the marking loop never rewrites it. */
  lemma MarkerInert(c: char, d: Description)
    ensures forall y :: y in MarkerOf(c, d) ==> Inert(y)
  {
    LabelInert(c);
    SpanInert(d, Label(c));
  }

  /** A label is made of inert characters other than `"`. */
  lemma LabelInert(c: char)
    ensures forall y :: y in Label(c) ==> Inert(y) && y != '"'
  {
    var l := Label(c);
    assert l[0] == l[..2][0] && l[1] == l[..2][1];
    assert forall k :: 0 <= k < |l| ==> Inert(l[k]) && l[k] != '"';
  }

  lemma SpanInert(d: string, l: string)
    requires forall y :: y in d ==> Inert(y)
    requires forall y :: y in l ==> Inert(y)
    ensures forall y :: y in Span(d, l) ==> Inert(y)
  {
    assert forall k :: 0 <= k < |MarkerOpen| ==> Inert(MarkerOpen[k]);
  }

  /** The stats gathered after the first `i` catalog entries. */
  function StatsUpTo(n: string, i: nat): map<char, Stat>
    requires i <= |Watermarks|
  {
    map c | c in Keys(Watermarks[..i]) && c in n :: Stat(Describe(c), Count(n, c), Label(c))
  }

  /** `detect_watermarks(text)`, returning `(marked_text, watermark_stats)`. */
  method DetectWatermarks(input: string) returns (marked: string, stats: map<char, Stat>)
    ensures marked == Mark(Normalize(input))
    ensures stats == StatsOf(Normalize(input))
    ensures input == [] ==> marked == [] && stats == map[]
  {
    if |input| == 0 {
      return "", map[];
    }
    var text := NormalizeTypography(input);
    stats := map[];
    marked := text;
    for i := 0 to |Watermarks|
      invariant marked == Rewrite(text, MapEntries(Watermarks[..i], MarkerOf))
      invariant stats == StatsUpTo(text, i)
    {
      var (ch, description) := Watermarks[i];
      MarkStep(text, i);
      StatsStep(text, i);
      var count := Count(text, ch);
      if count > 0 {
        stats := stats[ch := Stat(description, count, Label(ch))];
        var unicode := Label(ch);
        var marker := Span(description, unicode);
        marked := ReplaceAll(marked, ch, marker);
      }
    }
    MarkDone(text);
  }

  /** One iteration of the marking loop extends the marker table by one entry. */
  lemma MarkStep(n: string, i: nat)
    requires i < |Watermarks|
    ensures var (c, d) := Watermarks[i];
      var t := MapEntries(Watermarks[..i], MarkerOf);
      Rewrite(n, MapEntries(Watermarks[..i + 1], MarkerOf)) ==
        if c in n then ReplaceAll(Rewrite(n, t), c, MarkerOf(c, d)) else Rewrite(n, t)
  {
    var (c, d) := Watermarks[i];
    var t := MapEntries(Watermarks[..i], MarkerOf);
    MapEntriesPrefix(Watermarks, MarkerOf, i);
    if c in n {
      WatermarkNotInert(c);
      forall j | 0 <= j < |t|
        ensures c !in t[j].1
      {
        assert t[j].1 == MarkerOf(Watermarks[j].0, Watermarks[j].1);
        MarkerInert(Watermarks[j].0, Watermarks[j].1);
      }
      ReplaceStep(n, t, c, MarkerOf(c, d));
    } else {
      RewriteUnused(n, t, c, MarkerOf(c, d));
    }
  }

  /** One iteration of the counting loop adds the entry's stat when its
      character occurs. */
  lemma StatsStep(n: string, i: nat)
    requires i < |Watermarks|
    ensures var (c, d) := Watermarks[i];
      StatsUpTo(n, i + 1) ==
        if c in n then StatsUpTo(n, i)[c := Stat(d, Count(n, c), Label(c))] else StatsUpTo(n, i)
  {
    var e := Watermarks[i];
    TakeNext(Watermarks, i);
    KeysAppend(Watermarks[..i], e);
    DescribeAt(i);
  }

  /** After the last entry the loop has produced the marked text and the stats. */
  lemma MarkDone(n: string)
    ensures Rewrite(n, MapEntries(Watermarks[..|Watermarks|], MarkerOf)) == Mark(n)
    ensures StatsUpTo(n, |Watermarks|) == StatsOf(n)
  {
    assert Watermarks[..|Watermarks|] == Watermarks;
    MarkAsRewrite(n);
  }

  /** The table-driven rewrite through the markers is the per-character map. */
  lemma {:induction false} MarkAsRewrite(s: string)
    ensures Rewrite(s, MapEntries(Watermarks, MarkerOf)) == Mark(s)
  {
    if s != [] {
      RewriteCatalog(s[0], MarkerOf);
      MarkAsRewrite(s[1..]);
    }
  }

  /** Reading a marker back: the character whose marker starts `s`, found by
      decoding the label after the `">` that closes the title attribute. */
  function ParseMarker(s: string): (r: Option<char>)
    ensures r.Some? ==> IsWatermark(r.value) && MarkerOf(r.value, Describe(r.value)) <= s
  {
    if |s| < |MarkerOpen| || s[..|MarkerOpen|] != MarkerOpen then None
    else
      var q := |MarkerOpen| + IndexOf(s[|MarkerOpen|..], '"');
      if |s| < q + 8 then None
      else match LabelValue(s[q + 2..q + 8])
        case None => None
        case Some(c) =>
          if IsWatermark(c) && MarkerOf(c, Describe(c)) <= s then Some(c) else None
  }

  /** Every marker span replaced by its character, everything else kept. */
  function Unmark(s: string): string
    decreases |s|
  {
    if s == [] then []
    else match ParseMarker(s)
      case Some(c) => [c] + Unmark(s[|MarkerOf(c, Describe(c))|..])
      case None => [s[0]] + Unmark(s[1..])
  }

  /** Where the parts of a span sit when neither its description nor its
      label holds a quote. */
  lemma SpanShape(d: string, l: string, t: string)
    requires '"' !in d && '"' !in l && |l| == 6
    ensures var s := Span(d, l) + t;
      var q := |MarkerOpen| + |d| + 9;
      q + 8 <= |s| && s[..|MarkerOpen|] == MarkerOpen &&
      IndexOf(s[|MarkerOpen|..], '"') == |d| + 9 && s[q + 2..q + 8] == l
  {
    var a := d + " (" + l + ")";
    var b := "\">" + l + ("</span>" + t);
    SpanSplit(d, l, t);
    assert '"' !in " (" && '"' !in ")";
    IndexOfAt(a, b, '"');
    Slices(MarkerOpen, a, "\">", l, "</span>" + t);
  }

  lemma SpanSplit(d: string, l: string, t: string)
    ensures Span(d, l) + t == MarkerOpen + ((d + " (" + l + ")") + ("\">" + l + ("</span>" + t)))
  {
  }

  /** The pieces of `p + (a + (g + l + r))` sit where their lengths say. */
  lemma Slices(p: string, a: string, g: string, l: string, r: string)
    ensures var s := p + (a + (g + l + r));
      s[..|p|] == p && s[|p|..] == a + (g + l + r) &&
      s[|p| + |a| + |g|..|p| + |a| + |g| + |l|] == l
  {
  }

  /** A marker followed by anything parses as its own character. */
  lemma ParseMarkerOf(c: char, t: string)
    requires IsWatermark(c)
    ensures ParseMarker(MarkerOf(c, Describe(c)) + t) == Some(c)
  {
    WatermarkNotInert(c);
    LabelInert(c);
    SpanShape(Describe(c), Label(c), t);
    LabelRoundTrip(c);
  }

  lemma IndexOfAt(a: string, b: string, x: char)
    requires x !in a && b != [] && b[0] == x
    ensures IndexOf(a + b, x) == |a|
  {
    var r := IndexOf(a + b, x);
    assert (a + b)[|a|] == x;
  }

  /** `s` holds the opening of a marker somewhere, as text. */
  predicate HoldsMarkerOpen(s: string)
  {
    exists k :: 0 <= k <= |s| && MarkerOpen <= s[k..]
  }

  /** Every character is marked as itself or by a marker starting with `<`. */
  lemma MarkHeads()
    ensures forall y :: MarkChar(y) == [y] || (MarkChar(y) != [] && MarkChar(y)[0] == '<')
  {
    forall y
      ensures MarkChar(y) == [y] || (MarkChar(y) != [] && MarkChar(y)[0] == '<')
    {
      MarkCharHead(y);
    }
  }

  lemma MarkCharHead(x: char)
    ensures IsWatermark(x) ==> MarkChar(x)[0] == '<'
    ensures !IsWatermark(x) ==> MarkChar(x) == [x]
  {
  }

  /** Round trip: replacing each marker of the marked text by its character
      gives back the text that was marked, provided that text does not itself
      hold the opening of a marker (a literal marker in the text would be read
      back as a character: see `MarkedTextAmbiguous`). */
  lemma {:induction false} UnmarkMark(n: string)
    requires !HoldsMarkerOpen(n)
    ensures Unmark(Mark(n)) == n
  {
    if n != [] {
      var x := n[0];
      var rest := Mark(n[1..]);
      assert Mark(n) == MarkChar(x) + rest;
      assert !HoldsMarkerOpen(n[1..]) by {
        forall k | 0 <= k <= |n[1..]|
          ensures !(MarkerOpen <= n[1..][k..])
        {
          assert n[1..][k..] == n[k + 1..];
        }
      }
      UnmarkMark(n[1..]);
      if IsWatermark(x) {
        ParseMarkerOf(x, rest);
        assert Mark(n)[|MarkerOf(x, Describe(x))|..] == rest;
      } else {
        assert n[0..] == n;
        PlainHead(n);
        assert Mark(n)[1..] == rest;
      }
    }
  }

  /** A marked text that starts with a plain character not opening a marker
      is not read as a marker there. */
  lemma PlainHead(n: string)
    requires n != [] && !IsWatermark(n[0]) && !(MarkerOpen <= n)
    ensures Mark(n) == [n[0]] + Mark(n[1..])
    ensures ParseMarker(Mark(n)) == None
  {
    MarkPlain(n);
    NoOpening(n[0], n[1..]);
    ParseNone(Mark(n));
  }

  lemma NoOpening(x: char, t: string)
    requires !(MarkerOpen <= [x] + t)
    ensures !(MarkerOpen <= [x] + Mark(t))
  {
    MarkHeads();
    OpenRest();
    FlatMapPrefix(MarkChar, '<', MarkerOpen[1..], t);
    ConsPrefix(MarkerOpen, x, Mark(t), t);
  }

  /** The only `<` of a marker opening is its first character. */
  lemma OpenRest()
    ensures MarkerOpen != [] && MarkerOpen[0] == '<' && '<' !in MarkerOpen[1..]
  {
    assert forall k :: 1 <= k < |MarkerOpen| ==> MarkerOpen[k] != '<';
  }

  lemma MarkPlain(n: string)
    requires n != [] && !IsWatermark(n[0])
    ensures Mark(n) == [n[0]] + Mark(n[1..])
  {
    MarkCharHead(n[0]);
  }

  lemma ParseNone(s: string)
    requires !(MarkerOpen <= s)
    ensures ParseMarker(s) == None
  {
  }

  /** Text made of inert characters is left alone by both passes. */
  lemma {:induction false} InertFixed(s: string)
    requires forall y :: y in s ==> Inert(y)
    ensures Normalize(s) == s && Mark(s) == s
  {
    forall y | y in s
      ensures NormalizeChar(y) == [y] && MarkChar(y) == [y]
    {
      TypographicIsWatermark(y);
      if IsWatermark(y) {
        WatermarkNotInert(y);
      }
    }
    FlatMapIdentity(NormalizeChar, s);
    FlatMapIdentity(MarkChar, s);
  }

  /** The marked text is ambiguous when the input already holds marker text:
      the literal marker of a catalog character and the character itself are
      marked identically. */
  lemma MarkedTextAmbiguous(c: char)
    requires IsWatermark(c) && !IsTypographic(c)
    ensures MarkerOf(c, Describe(c)) != [c]
    ensures Mark(Normalize(MarkerOf(c, Describe(c)))) == Mark(Normalize([c]))
  {
    var literal := MarkerOf(c, Describe(c));
    MarkerInert(c, Describe(c));
    InertFixed(literal);
    FlatMapSingle(NormalizeChar, c);
    FlatMapSingle(MarkChar, c);
  }

  /** The stats of a detection, stated against the text as submitted: one
      entry per non-typographic catalog character of the input, counting its
      occurrences there, with its catalog description and its label. */
  lemma StatsOfInput(text: string)
    ensures var stats := StatsOf(Normalize(text));
      forall c :: c in stats <==> IsWatermark(c) && !IsTypographic(c) && c in text
    ensures var stats := StatsOf(Normalize(text));
      forall c :: c in stats ==>
        stats[c].count == Count(text, c) && stats[c].count > 0 &&
        stats[c].description == Describe(c) &&
        |stats[c].unicode| == 6 && stats[c].unicode[..2] == "U+" &&
        (forall k :: 2 <= k < 6 ==> stats[c].unicode[k] in HexDigits) &&
        LabelValue(stats[c].unicode) == Some(c)
  {
    var n := Normalize(text);
    NormalizeRemovesTypographic(text);
    forall c | IsWatermark(c)
      ensures c in n <==> !IsTypographic(c) && c in text
      ensures c in n ==> Count(n, c) == Count(text, c)
    {
      WatermarkNotInert(c);
      if !IsTypographic(c) {
        NormalizeCount(text, c);
      }
    }
    forall c | IsWatermark(c)
      ensures |Label(c)| == 6 && LabelValue(Label(c)) == Some(c)
    {
      WatermarkNotInert(c);
      LabelRoundTrip(c);
    }
  }

  /** Text without catalog characters comes back unmarked, with no stats. */
  lemma PlainText(text: string)
    requires forall x :: x in text ==> !IsWatermark(x)
    ensures Mark(Normalize(text)) == text
    ensures StatsOf(Normalize(text)) == map[]
  {
    forall x | x in text
      ensures !IsTypographic(x)
    {
      TypographicIsWatermark(x);
    }
    NormalizeIdentity(text);
    FlatMapIdentity(MarkChar, text);
  }

  /** The marked text of a detection reads back as the normalized input, as
      long as the normalized input does not itself hold the opening of a
      marker. */
  lemma DetectRoundTrip(text: string)
    requires !HoldsMarkerOpen(Normalize(text))
    ensures Unmark(Mark(Normalize(text))) == Normalize(text)
  {
    UnmarkMark(Normalize(text));
  }

  /** Text without `<` never holds a marker opening, so the round trip covers
      it; text that holds one, such as a literal marker, is where it fails. */
  lemma WithoutAngle(text: string)
    requires '<' !in text
    ensures !HoldsMarkerOpen(Normalize(text))
  {
    TypographicKeys();
    forall k | 0 <= k <= |Normalize(text)|
      ensures !(MarkerOpen <= Normalize(text)[k..])
    {
      assert MarkerOpen[0] == '<';
      if k < |Normalize(text)| {
        assert Normalize(text)[k..][0] == Normalize(text)[k];
        FlatMapMember(NormalizeChar, text, Normalize(text)[k]);
      }
    }
  }
}
