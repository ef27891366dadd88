/** `remove_watermarks` (app.py:135-162): normalize quotes and dashes, turn
    the no-break space into a space, delete every other catalog character,
    then delete the C1 controls, the Private Use Area and the Specials
    block. */
module Cleaner {
  import opened Strings
  import opened Catalog
  import opened Typography

  /** The character class of the final `re.sub` (app.py:160). */
  predicate InFilterRange(c: char) {
    '\U{0080}' <= c <= '\U{009F}' || '\U{E000}' <= c <= '\U{F8FF}' || '\U{FFF0}' <= c <= '\U{FFFF}'
  }

  /** No catalog character lies in the filtered ranges. */
  lemma FilterApart(c: char)
    requires IsWatermark(c)
    ensures !InFilterRange(c)
  {
    WatermarkNotInert(c);
  }

  function StripChar(x: char): string
  {
    if InFilterRange(x) then "" else [x]
  }

  /** The final `re.sub`: every character of the filtered ranges deleted. */
  function StripRanges(s: string): string
  {
    FlatMap(StripChar, s)
  }

  /** What the catalog loop replaces a catalog character by (app.py:152-156). */
  function CleanOut(c: char, d: string): (r: string)
    ensures |r| <= 1 && forall y :: y in r ==> Inert(y)
  {
    if c == '\U{00A0}' then " " else ""
  }

  /** What cleaning does to one character of the submitted text, written
      out case by case. */
  function CleanChar(x: char): (r: string)
    ensures |r| <= 1
    ensures r == [x] <==> !IsWatermark(x) && !InFilterRange(x)
    ensures r != [x] ==> r == [] || r == " " || r == "'" || r == "\"" || r == "-"
  {
    NoBreakSpaceListed();
    TypographicKeys();
    TypographicIsWatermark(x);
    if x == '\U{2018}' || x == '\U{2019}' then "'"
    else if x == '\U{201D}' || x == '\U{201E}' then "\""
    else if x == '\U{2013}' || x == '\U{2014}' then "-"
    else if x == '\U{00A0}' then " "
    else if IsWatermark(x) || InFilterRange(x) then ""
    else [x]
  }

  lemma NoBreakSpaceListed()
    ensures IsWatermark('\U{00A0}')
  {
    assert Watermarks[0] == NoBreakSpace;
    DescribeAt(0);
  }

  /** The cleaned text: every character mapped on its own. */
  function Clean(s: string): string
  {
    FlatMap(CleanChar, s)
  }

  /** `remove_watermarks(text)` */
  method RemoveWatermarks(input: string) returns (r: string)
    ensures r == Clean(input)
    ensures input == [] ==> r == []
  {
    if |input| == 0 {
      return "";
    }
    var text := NormalizeTypography(input);
    ghost var n := text;
    for i := 0 to |Watermarks|
      invariant text == Rewrite(n, MapEntries(Watermarks[..i], CleanOut))
    {
      var (ch, description) := Watermarks[i];
      CleanStep(n, i);
      if ch == '\U{00A0}' {
        text := ReplaceAll(text, ch, " ");
      } else {
        text := ReplaceAll(text, ch, "");
      }
    }
    assert Watermarks[..|Watermarks|] == Watermarks;
    r := StripRanges(text);
    CleanAsPasses(input);
  }

  /** One iteration of the catalog loop extends the replacement table by one
      entry. */
  lemma CleanStep(n: string, i: nat)
    requires i < |Watermarks|
    ensures var (c, d) := Watermarks[i];
      ReplaceAll(Rewrite(n, MapEntries(Watermarks[..i], CleanOut)), c, CleanOut(c, d)) ==
        Rewrite(n, MapEntries(Watermarks[..i + 1], CleanOut))
  {
    var (c, d) := Watermarks[i];
    var t := MapEntries(Watermarks[..i], CleanOut);
    MapEntriesPrefix(Watermarks, CleanOut, i);
    WatermarkNotInert(c);
    forall j | 0 <= j < |t|
      ensures c !in t[j].1
    {
      assert t[j].1 == CleanOut(Watermarks[j].0, Watermarks[j].1);
    }
    ReplaceStep(n, t, c, CleanOut(c, d));
  }

  /** The catalog loop and the range filter on one normalized character. */
  lemma PassesChar(y: char)
    ensures StripRanges(Rewrite([y], MapEntries(Watermarks, CleanOut))) ==
      if y == '\U{00A0}' then " " else if IsWatermark(y) then "" else StripChar(y)
  {
    var t := MapEntries(Watermarks, CleanOut);
    assert Rewrite([y], t) == RewriteChar(y, t) + Rewrite([], t);
    RewriteCatalog(y, CleanOut);
    NoBreakSpaceListed();
    if IsWatermark(y) {
      FilterApart(y);
      if y == '\U{00A0}' {
        FlatMapSingle(StripChar, ' ');
      } else {
        assert StripRanges([]) == [];
      }
    } else {
      FlatMapSingle(StripChar, y);
    }
  }

  lemma CleanAsPassesChar(x: char)
    ensures StripRanges(Rewrite(NormalizeChar(x), MapEntries(Watermarks, CleanOut))) == CleanChar(x)
  {
    if IsTypographic(x) {
      PassesTypographic(x);
    } else {
      PassesOther(x);
    }
  }

  lemma PassesTypographic(x: char)
    requires IsTypographic(x)
    ensures StripRanges(Rewrite(NormalizeChar(x), MapEntries(Watermarks, CleanOut))) == CleanChar(x)
  {
    var y := NormalizeChar(x)[0];
    assert NormalizeChar(x) == [y];
    TypographicOut(x);
    PassesChar(y);
  }

  lemma PassesOther(x: char)
    requires !IsTypographic(x)
    ensures StripRanges(Rewrite(NormalizeChar(x), MapEntries(Watermarks, CleanOut))) == CleanChar(x)
  {
    NormalizeIdentity([x]);
    FlatMapSingle(NormalizeChar, x);
    PassesChar(x);
  }

  /** A typographic character becomes an ASCII character that no later pass
      touches. */
  lemma TypographicOut(x: char)
    requires IsTypographic(x)
    ensures var y := NormalizeChar(x)[0];
      y != '\U{00A0}' && !IsWatermark(y) && !InFilterRange(y) && [y] == CleanChar(x)
  {
    TypographicKeys();
    var y := NormalizeChar(x)[0];
    assert y == '\'' || y == '"' || y == '-';
    if IsWatermark(y) {
      WatermarkNotInert(y);
    }
  }

  /** The three passes of the source, composed, are the per-character map. */
  lemma {:induction false} CleanAsPasses(s: string)
    ensures StripRanges(Rewrite(Normalize(s), MapEntries(Watermarks, CleanOut))) == Clean(s)
  {
    if s != [] {
      var t := MapEntries(Watermarks, CleanOut);
      var x := s[0];
      CleanAsPasses(s[1..]);
      RewriteAppend(NormalizeChar(x), Normalize(s[1..]), t);
      FlatMapAppend(StripChar, Rewrite(NormalizeChar(x), t), Rewrite(Normalize(s[1..]), t));
      CleanAsPassesChar(x);
    }
  }

  /** Cleaning distributes over concatenation. */
  lemma CleanAppend(a: string, b: string)
    ensures Clean(a + b) == Clean(a) + Clean(b)
  {
    FlatMapAppend(CleanChar, a, b);
  }

  /** Cleaning never lengthens the text. */
  lemma CleanShorter(s: string)
    ensures |Clean(s)| <= |s|
  {
    FlatMapShorter(CleanChar, s);
  }

  /** No catalog character and no character of the filtered ranges survives. */
  lemma CleanRemoves(s: string)
    ensures forall y :: y in Clean(s) ==> !IsWatermark(y) && !InFilterRange(y)
  {
    forall y | y in Clean(s)
      ensures !IsWatermark(y) && !InFilterRange(y)
    {
      FlatMapMember(CleanChar, s, y);
      var x :| x in s && y in CleanChar(x);
      if IsWatermark(y) {
        WatermarkNotInert(y);
      }
    }
  }

  /** Cleaning leaves a text unchanged exactly when it holds no catalog
      character and no character of the filtered ranges. */
  lemma CleanFixed(s: string)
    ensures Clean(s) == s <==> forall x :: x in s ==> !IsWatermark(x) && !InFilterRange(x)
  {
    if forall x :: x in s ==> !IsWatermark(x) && !InFilterRange(x) {
      FlatMapIdentity(CleanChar, s);
    }
    CleanRemoves(s);
  }

  /** Cleaning twice is cleaning once. */
  lemma CleanIdempotent(s: string)
    ensures Clean(Clean(s)) == Clean(s)
  {
    CleanRemoves(s);
    CleanFixed(Clean(s));
  }

  /** Every other character is kept, as often as it occurs. */
  lemma {:induction false} CleanCount(s: string, c: char)
    requires !IsWatermark(c) && !InFilterRange(c)
    requires c != '\'' && c != '"' && c != '-' && c != ' '
    ensures Count(Clean(s), c) == Count(s, c)
  {
    if s != [] {
      CleanCount(s[1..], c);
      assert Clean(s) == CleanChar(s[0]) + Clean(s[1..]);
      assert s == [s[0]] + s[1..];
    }
  }
}
