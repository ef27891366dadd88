/** The first pass of both `detect_watermarks` (app.py:110-111) and
    `remove_watermarks` (app.py:148-149): typographic quotes and dashes are
    replaced by their ASCII counterparts. */
module Typography {
  import opened Strings
  import opened Catalog

  /** A character the replacement table rewrites. */
  predicate IsTypographic(x: char) {
    x in Keys(Replacements)
  }

  lemma TypographicKeys()
    ensures Keys(Replacements) == ['\U{2019}', '\U{2018}', '\U{201D}', '\U{201E}', '\U{2013}', '\U{2014}']
  {
  }

  /** Every typographic character is a catalog character. */
  lemma TypographicIsWatermark(x: char)
    ensures IsTypographic(x) ==> IsWatermark(x)
  {
    ReplacementsFacts();
    if IsTypographic(x) {
      var i := IndexOf(Keys(Replacements), x);
      assert Replacements[i].0 == x;
    }
  }

  /** What the replacement pass does to one character. */
  function NormalizeChar(x: char): (r: string)
    ensures |r| == 1
    ensures IsTypographic(x) <==> r != [x]
  {
    TypographicKeys();
    if x == '\U{2018}' || x == '\U{2019}' then "'"
    else if x == '\U{201D}' || x == '\U{201E}' then "\""
    else if x == '\U{2013}' || x == '\U{2014}' then "-"
    else [x]
  }

  /** The normalized text: every character mapped on its own. */
  function Normalize(s: string): string
  {
    FlatMap(NormalizeChar, s)
  }

  lemma RewriteReplacementsChar(x: char)
    ensures RewriteChar(x, Replacements) == NormalizeChar(x)
  {
    TypographicKeys();
  }

  /** The table-driven rewrite through `replacements` is the per-character map. */
  lemma {:induction false} RewriteReplacements(s: string)
    ensures Rewrite(s, Replacements) == Normalize(s)
  {
    if s != [] {
      RewriteReplacementsChar(s[0]);
      RewriteReplacements(s[1..]);
    }
  }

  /** `for old, new in replacements.items(): text = text.replace(old, new)` */
  method NormalizeTypography(text: string) returns (r: string)
    ensures r == Normalize(text)
  {
    r := text;
    for i := 0 to |Replacements|
      invariant r == Rewrite(text, Replacements[..i])
    {
      var (key, ascii) := Replacements[i];
      NormalizeStep(text, i);
      r := ReplaceAll(r, key, ascii);
    }
    NormalizeDone(text);
  }

  /** One iteration of the replacement loop extends the table by one entry. */
  lemma NormalizeStep(s: string, i: nat)
    requires i < |Replacements|
    ensures ReplaceAll(Rewrite(s, Replacements[..i]), Replacements[i].0, Replacements[i].1) ==
      Rewrite(s, Replacements[..i + 1])
  {
    ReplacementsFacts();
    var (key, ascii) := Replacements[i];
    WatermarkNotInert(key);
    ReplaceStep(s, Replacements[..i], key, ascii);
    TakeNext(Replacements, i);
  }

  lemma NormalizeDone(s: string)
    ensures Rewrite(s, Replacements[..|Replacements|]) == Normalize(s)
  {
    assert Replacements[..|Replacements|] == Replacements;
    RewriteReplacements(s);
  }

  /** Normalizing keeps the length and changes only typographic characters. */
  lemma {:induction false} NormalizeShape(s: string)
    ensures |Normalize(s)| == |s|
    ensures forall k :: 0 <= k < |s| ==>
      Normalize(s)[k] == if IsTypographic(s[k]) then NormalizeChar(s[k])[0] else s[k]
  {
    if s != [] {
      NormalizeShape(s[1..]);
      var r := Normalize(s);
      assert r == NormalizeChar(s[0]) + Normalize(s[1..]);
      forall k | 1 <= k < |s|
        ensures r[k] == if IsTypographic(s[k]) then NormalizeChar(s[k])[0] else s[k]
      {
        assert r[k] == Normalize(s[1..])[k - 1] && s[k] == s[1..][k - 1];
      }
    }
  }

  /** No typographic character survives normalization. */
  lemma NormalizeRemovesTypographic(s: string)
    ensures forall y :: y in Normalize(s) ==> !IsTypographic(y)
  {
    ReplacementsFacts();
    forall y | y in Normalize(s)
      ensures !IsTypographic(y)
    {
      FlatMapMember(NormalizeChar, s, y);
    }
  }

  /** Text without typographic characters is already normal; in particular
      normalizing twice is normalizing once. */
  lemma NormalizeIdentity(s: string)
    requires forall x :: x in s ==> !IsTypographic(x)
    ensures Normalize(s) == s
  {
    FlatMapIdentity(NormalizeChar, s);
  }

  lemma NormalizeIdempotent(s: string)
    ensures Normalize(Normalize(s)) == Normalize(s)
  {
    NormalizeRemovesTypographic(s);
    NormalizeIdentity(Normalize(s));
  }

  /** A character that is not typographic and not one of the three ASCII
      replacements occurs in the normalized text exactly as often as in the
      original. */
  lemma {:induction false} NormalizeCount(s: string, c: char)
    requires !IsTypographic(c) && c != '\'' && c != '"' && c != '-'
    ensures Count(Normalize(s), c) == Count(s, c)
  {
    if s != [] {
      NormalizeCount(s[1..], c);
      assert Normalize(s) == NormalizeChar(s[0]) + Normalize(s[1..]);
      assert s == [s[0]] + s[1..];
    }
  }
}
