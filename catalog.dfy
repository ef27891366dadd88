/** The fixed tables of `get_watermark_definitions` (app.py:10-96): the six
    typographic replacements and the 67 watermark code points with their
    descriptions, both in the order the source lists them (Python dictionaries
    iterate in insertion order), together with the facts about these tables
    that make the detector's and the cleaner's replacement loops
    order-independent. */
module Catalog {
  import opened Strings

  /** Characters that no catalog entry uses: ASCII and C1 controls (below
      U+00A0) and the Latin-1 letters U+00C0-U+00FF. */
  predicate Inert(c: char) {
    c < '\U{00A0}' || '\U{00C0}' <= c <= '\U{00FF}'
  }

  /** The code-point block every catalog key lies in. */
  predicate InCatalogBlock(c: char) {
    c == '\U{00A0}' || c == '\U{00AD}' || c == '\U{061C}' || c == '\U{180E}' ||
    ('\U{2000}' <= c <= '\U{206F}') || c == '\U{3000}' || c == '\U{FEFF}'
  }

  /** A description is inert text without a double quote, so that it can sit
      inside the marker's `title="..."` attribute. */
  type Description = s: string | forall k :: 0 <= k < |s| ==> Inert(s[k]) && s[k] != '"'

  /** One catalog entry: a code point and its description. Descriptions are
      written as short literals joined by `+`. */
  type Definition = (char, Description)


  const NoBreakSpace: Definition := ('\U{00A0}', "Non-breaking Space " + "(gesch\U{00FC}tztes " + "Leerzeichen)")
  const SoftHyphen: Definition := ('\U{00AD}', "Soft Hyphen " + "(weiches " + "Trennzeichen)")
  const ZeroWidthSpace: Definition := ('\U{200B}', "Zero Width Space " + "(Nullbreiten-Leerzeichen)")
  const ZeroWidthNonJoiner: Definition := ('\U{200C}', "Zero Width " + "Non-Joiner (ZWNJ)")
  const ZeroWidthJoiner: Definition := ('\U{200D}', "Zero Width Joiner " + "(ZWJ)")
  const NarrowNoBreakSpace: Definition := ('\U{202F}', "Narrow No-Break " + "Space (schmales " + "gesch\U{00FC}tztes " + "Leerzeichen)")
  const WordJoiner: Definition := ('\U{2060}', "Word Joiner")
  const Dagger: Definition := ('\U{2020}', "Kreuz (Dagger)")
  const DoubleDagger: Definition := ('\U{2021}', "Doppelkreuz (Double " + "Dagger)")
  const Bullet: Definition := ('\U{2022}', "Aufz\U{00E4}hlungszeichen " + "(Bullet Point)")
  const TriangularBullet: Definition := ('\U{2023}', "Dreieckiges " + "Aufz\U{00E4}hlungszeichen")
  const HyphenBullet: Definition := ('\U{2043}', "Hyphen Bullet")
  const BlackLeftwardsBullet: Definition := ('\U{204C}', "Schwarzes " + "Aufz\U{00E4}hlungszeichen")
  const BlackRightwardsBullet: Definition := ('\U{204D}', "Wei\U{00DF}es " + "Aufz\U{00E4}hlungszeichen")
  const ByteOrderMark: Definition := ('\U{FEFF}', "Byte Order Mark " + "(BOM)")

  /** Marks the catalog lists first: spaces, joiners, bullets and the byte order mark (app.py:24-38). */
  const SpecificMarks: seq<Definition> := [
    NoBreakSpace, SoftHyphen, ZeroWidthSpace, ZeroWidthNonJoiner, ZeroWidthJoiner, NarrowNoBreakSpace,
    WordJoiner, Dagger, DoubleDagger, Bullet, TriangularBullet, HyphenBullet, BlackLeftwardsBullet,
    BlackRightwardsBullet, ByteOrderMark
  ]

  const RightDoubleQuotationMark: Definition := ('\U{201D}', "Right Double " + "Quotation Mark")
  const DoubleLow9QuotationMark: Definition := ('\U{201E}', "Double Low-9 " + "Quotation Mark")
  const LeftDoubleQuotationMark: Definition := ('\U{201C}', "Left Double " + "Quotation Mark")
  const DoubleHighReversed9QuotationMark: Definition := ('\U{201F}', "Double " + "High-Reversed-9 " + "Quotation Mark")
  const LeftSingleQuotationMark: Definition := ('\U{2018}', "Left Single " + "Quotation Mark")
  const RightSingleQuotationMark: Definition := ('\U{2019}', "Right Single " + "Quotation Mark")
  const SingleLow9QuotationMark: Definition := ('\U{201A}', "Single Low-9 " + "Quotation Mark")
  const SingleHighReversed9QuotationMark: Definition := ('\U{201B}', "Single " + "High-Reversed-9 " + "Quotation Mark")

  /** Typographic quotation marks (app.py:40-47). */
  const QuotationMarks: seq<Definition> := [
    RightDoubleQuotationMark, DoubleLow9QuotationMark, LeftDoubleQuotationMark, DoubleHighReversed9QuotationMark,
    LeftSingleQuotationMark, RightSingleQuotationMark, SingleLow9QuotationMark, SingleHighReversed9QuotationMark
  ]

  const EnDash: Definition := ('\U{2013}', "En Dash")
  const EmDash: Definition := ('\U{2014}', "Em Dash")
  const HorizontalBar: Definition := ('\U{2015}', "Horizontal Bar")
  const Hyphen: Definition := ('\U{2010}', "Hyphen")
  const NonBreakingHyphen: Definition := ('\U{2011}', "Non-Breaking Hyphen")
  const FigureDash: Definition := ('\U{2012}', "Figure Dash")

  /** Dashes and hyphens (app.py:49-54). */
  const Dashes: seq<Definition> := [
    EnDash, EmDash, HorizontalBar, Hyphen, NonBreakingHyphen, FigureDash
  ]

  const EnQuad: Definition := ('\U{2000}', "En-Quadrat")
  const EmQuad: Definition := ('\U{2001}', "Em-Quadrat")
  const EnSpace: Definition := ('\U{2002}', "En-Leerzeichen")
  const EmSpace: Definition := ('\U{2003}', "Em-Leerzeichen")
  const ThreePerEmSpace: Definition := ('\U{2004}', "Drittel-Em-Leerzeichen")
  const FourPerEmSpace: Definition := ('\U{2005}', "Viertel-Em-Leerzeichen")
  const SixPerEmSpace: Definition := ('\U{2006}', "Sechstel-Em-Leerzeichen")
  const FigureSpace: Definition := ('\U{2007}', "Zahlen-Leerzeichen")
  const PunctuationSpace: Definition := ('\U{2008}', "Interpunktions-Leerzeichen")
  const ThinSpace: Definition := ('\U{2009}', "D\U{00FC}nnes Leerzeichen")
  const HairSpace: Definition := ('\U{200A}', "Haar-Leerzeichen")
  const LeftToRightMark: Definition := ('\U{200E}', "Links-nach-Rechts-Markierung")
  const RightToLeftMark: Definition := ('\U{200F}', "Rechts-nach-Links-Markierung")
  const LineSeparator: Definition := ('\U{2028}', "Zeilentrenner")
  const ParagraphSeparator: Definition := ('\U{2029}', "Absatztrenner")
  const LeftToRightEmbedding: Definition := ('\U{202A}', "Links-nach-Rechts-Einbettung")
  const RightToLeftEmbedding: Definition := ('\U{202B}', "Rechts-nach-Links-Einbettung")
  const PopDirectionalFormatting: Definition := ('\U{202C}', "Richtungsformatierung " + "beenden")
  const LeftToRightOverride: Definition := ('\U{202D}', "Links-nach-Rechts-\U{00DC}berschreibung")
  const RightToLeftOverride: Definition := ('\U{202E}', "Rechts-nach-Links-\U{00DC}berschreibung")
  const MediumMathematicalSpace: Definition := ('\U{205F}', "Mittleres " + "mathematisches " + "Leerzeichen")
  const FunctionApplication: Definition := ('\U{2061}', "Funktionsanwendung")
  const InvisibleTimes: Definition := ('\U{2062}', "Unsichtbares " + "Malzeichen")
  const InvisibleSeparator: Definition := ('\U{2063}', "Unsichtbarer Trenner")
  const InvisiblePlus: Definition := ('\U{2064}', "Unsichtbares " + "Pluszeichen")
  const LeftToRightIsolate: Definition := ('\U{2066}', "Links-nach-Rechts-Isolierung")
  const RightToLeftIsolate: Definition := ('\U{2067}', "Rechts-nach-Links-Isolierung")
  const FirstStrongIsolate: Definition := ('\U{2068}', "Erste starke " + "Isolierung")
  const PopDirectionalIsolate: Definition := ('\U{2069}', "Richtungsisolierung " + "beenden")
  const InhibitSymmetricSwapping: Definition := ('\U{206A}', "Symmetrisches " + "Tauschen verhindern " + "(veraltet)")
  const ActivateSymmetricSwapping: Definition := ('\U{206B}', "Symmetrisches " + "Tauschen aktivieren " + "(veraltet)")
  const InhibitArabicFormShaping: Definition := ('\U{206C}', "Arabische " + "Formgestaltung " + "verhindern " + "(veraltet)")
  const ActivateArabicFormShaping: Definition := ('\U{206D}', "Arabische " + "Formgestaltung " + "aktivieren " + "(veraltet)")
  const NationalDigitShapes: Definition := ('\U{206E}', "Nationale " + "Ziffernformen " + "(veraltet)")
  const NominalDigitShapes: Definition := ('\U{206F}', "Nominale " + "Ziffernformen " + "(veraltet)")
  const IdeographicSpace: Definition := ('\U{3000}', "Ideographisches " + "Leerzeichen")
  const MongolianVowelSeparator: Definition := ('\U{180E}', "Mongolischer " + "Vokaltrennzeichen")
  const ArabicLetterMark: Definition := ('\U{061C}', "Arabisches " + "Buchstabenzeichen")

  /** Further spaces, directional and invisible formatting characters (app.py:56-93). */
  const FurtherMarks: seq<Definition> := [
    EnQuad, EmQuad, EnSpace, EmSpace, ThreePerEmSpace, FourPerEmSpace, SixPerEmSpace, FigureSpace,
    PunctuationSpace, ThinSpace, HairSpace, LeftToRightMark, RightToLeftMark, LineSeparator,
    ParagraphSeparator, LeftToRightEmbedding, RightToLeftEmbedding, PopDirectionalFormatting,
    LeftToRightOverride, RightToLeftOverride, MediumMathematicalSpace, FunctionApplication,
    InvisibleTimes, InvisibleSeparator, InvisiblePlus, LeftToRightIsolate, RightToLeftIsolate,
    FirstStrongIsolate, PopDirectionalIsolate, InhibitSymmetricSwapping, ActivateSymmetricSwapping,
    InhibitArabicFormShaping, ActivateArabicFormShaping, NationalDigitShapes, NominalDigitShapes,
    IdeographicSpace, MongolianVowelSeparator, ArabicLetterMark
  ]

  /** `chatgpt_watermarks` (app.py:22-94), in source order. */
  const Watermarks: seq<Definition> := SpecificMarks + QuotationMarks + Dashes + FurtherMarks

  /** `replacements` (app.py:12-19), in source order. */
  const Replacements: Table := [
    ('\U{2019}', "'"), ('\U{2018}', "'"),
    ('\U{201D}', "\""), ('\U{201E}', "\""),
    ('\U{2013}', "-"), ('\U{2014}', "-")
  ]

  /** Catalog membership: `char in chatgpt_watermarks`. */
  predicate IsWatermark(c: char) {
    c in Keys(Watermarks)
  }

  /** The catalog description of a watermark character. */
  function Describe(c: char): Description
    requires IsWatermark(c)
  {
    Watermarks[IndexOf(Keys(Watermarks), c)].1
  }

  lemma SpecificInBlock()
    ensures forall i :: 0 <= i < |SpecificMarks| ==> InCatalogBlock(SpecificMarks[i].0)
  {
  }

  /** The marks of the last group, except the first eleven, outside
      U+2000-U+200A. */
  predicate InFurtherBlock(c: char) {
    ('\U{2000}' <= c <= '\U{200A}') || c == '\U{200E}' || c == '\U{200F}' ||
    ('\U{2028}' <= c <= '\U{202E}') || c == '\U{205F}' || ('\U{2061}' <= c <= '\U{2064}') ||
    ('\U{2066}' <= c <= '\U{206F}') || c == '\U{3000}' || c == '\U{180E}' || c == '\U{061C}'
  }

  lemma FurtherInBlock()
    ensures forall i :: 0 <= i < |FurtherMarks| ==> InFurtherBlock(FurtherMarks[i].0)
  {
  }

  lemma KeysInBlock()
    ensures forall i :: 0 <= i < |Watermarks| ==> InCatalogBlock(Watermarks[i].0)
  {
    SpecificInBlock();
    FurtherInBlock();
    GroupsApart();
    var a, b, c, d := SpecificMarks, QuotationMarks, Dashes, FurtherMarks;
    forall i | 0 <= i < |Watermarks|
      ensures InCatalogBlock(Watermarks[i].0)
    {
      var w := Watermarks;
      if i < 15 { assert w[i] == a[i]; }
      else if i < 23 { assert w[i] == b[i - 15]; }
      else if i < 29 { assert w[i] == c[i - 23]; }
      else { assert w[i] == d[i - 29]; }
    }
  }

  /** No group lists a code point twice. */
  lemma SpecificDistinct()
    ensures DistinctKeys(SpecificMarks)
  {
  }

  lemma QuotationsAndDashesDistinct()
    ensures DistinctKeys(QuotationMarks) && DistinctKeys(Dashes)
  {
  }

  lemma FurtherIncreasingLow()
    ensures forall i :: 0 <= i < 12 ==> FurtherMarks[i].0 < FurtherMarks[i + 1].0
  {
  }

  lemma FurtherIncreasingMiddle()
    ensures forall i :: 12 <= i < 24 ==> FurtherMarks[i].0 < FurtherMarks[i + 1].0
  {
  }

  lemma FurtherIncreasingHigh()
    ensures forall i :: 24 <= i < 35 ==> FurtherMarks[i].0 < FurtherMarks[i + 1].0
  {
  }

  /** The last group increases up to U+3000 and then ends with U+180E and
      U+061C, below all the others. */
  lemma FurtherMarksDistinct()
    ensures DistinctKeys(FurtherMarks)
  {
    var f := FurtherMarks;
    FurtherIncreasingLow();
    FurtherIncreasingMiddle();
    FurtherIncreasingHigh();
    IncreasingKeys(f, 0, 36);
    assert f[36].0 == '\U{180E}' && f[37].0 == '\U{061C}';
    assert '\U{2000}' <= f[0].0;
  }

  /** Quotation marks and dashes occupy U+2010-U+201F, which the other two
      groups avoid; inside that block quotation marks start at U+2018 and
      dashes end at U+2015. */
  lemma GroupsApart()
    ensures forall i :: 0 <= i < |QuotationMarks| ==> '\U{2018}' <= QuotationMarks[i].0 <= '\U{201F}'
    ensures forall i :: 0 <= i < |Dashes| ==> '\U{2010}' <= Dashes[i].0 <= '\U{2015}'
    ensures forall i :: 0 <= i < |SpecificMarks| ==> !('\U{2010}' <= SpecificMarks[i].0 <= '\U{201F}')
    ensures forall i :: 0 <= i < |FurtherMarks| ==> !('\U{2010}' <= FurtherMarks[i].0 <= '\U{201F}')
  {
  }

  lemma SpecificFurtherApart()
    ensures KeysApart(SpecificMarks, FurtherMarks)
  {
    FurtherInBlock();
    assert forall i :: 0 <= i < |SpecificMarks| ==> !InFurtherBlock(SpecificMarks[i].0);
  }

  lemma QuotationsApart()
    ensures KeysApart(SpecificMarks, QuotationMarks)
  {
    GroupsApart();
  }

  lemma DashesApart()
    ensures KeysApart(SpecificMarks + QuotationMarks, Dashes)
  {
    GroupsApart();
    var a: seq<Definition>, b: seq<Definition> := SpecificMarks, QuotationMarks;
    forall i | 0 <= i < |a + b|
      ensures !('\U{2010}' <= (a + b)[i].0 <= '\U{2015}')
    {
      if i < |a| { assert (a + b)[i] == a[i]; } else { assert (a + b)[i] == b[i - |a|]; }
    }
  }

  lemma FurtherApart()
    ensures KeysApart(SpecificMarks + QuotationMarks + Dashes, FurtherMarks)
  {
    GroupsApart();
    SpecificFurtherApart();
    var a: seq<Definition>, b: seq<Definition>, c: seq<Definition>, d: seq<Definition> :=
      SpecificMarks, QuotationMarks, Dashes, FurtherMarks;
    forall i, j | 0 <= i < |a + b + c| && 0 <= j < |d|
      ensures (a + b + c)[i].0 != d[j].0
    {
      if i < |a| { assert (a + b + c)[i] == a[i]; }
      else if i < |a| + |b| { assert (a + b + c)[i] == b[i - |a|]; }
      else { assert (a + b + c)[i] == c[i - |a| - |b|]; }
    }
  }

  lemma KeysDistinct()
    ensures forall i, j :: 0 <= i < j < |Watermarks| ==> Watermarks[i].0 != Watermarks[j].0
  {
    SpecificDistinct();
    QuotationsAndDashesDistinct();
    FurtherMarksDistinct();
    QuotationsApart();
    DashesApart();
    FurtherApart();
    var a, b, c, d := SpecificMarks, QuotationMarks, Dashes, FurtherMarks;
    DistinctConcat(a, b);
    DistinctConcat(a + b, c);
    DistinctConcat(a + b + c, d);
    assert DistinctKeys(Watermarks);
  }

  /** Every watermark lies in the catalog block, so no inert character is one. */
  lemma WatermarkNotInert(c: char)
    requires IsWatermark(c)
    ensures InCatalogBlock(c) && !Inert(c)
  {
    KeysInBlock();
    var i := IndexOf(Keys(Watermarks), c);
    assert Watermarks[i].0 == c;
  }

  /** Keys are distinct, so the description of the i-th entry is the one
      `Describe` finds. */
  lemma DescribeAt(i: nat)
    requires i < |Watermarks|
    ensures IsWatermark(Watermarks[i].0)
    ensures Describe(Watermarks[i].0) == Watermarks[i].1
  {
    KeysDistinct();
    var c := Watermarks[i].0;
    assert Keys(Watermarks)[i] == c;
    var k := IndexOf(Keys(Watermarks), c);
    assert k == i;
  }

  /** All six replacement keys are catalog keys, and each replacement is one
      inert character. */
  lemma ReplacementsFacts()
    ensures forall i :: 0 <= i < |Replacements| ==> IsWatermark(Replacements[i].0)
    ensures forall i :: 0 <= i < |Replacements| ==>
      |Replacements[i].1| == 1 && Inert(Replacements[i].1[0])
  {
    var w := Watermarks;
    assert w[15] == QuotationMarks[0] && w[16] == QuotationMarks[1];
    assert w[19] == QuotationMarks[4] && w[20] == QuotationMarks[5];
    assert w[23] == Dashes[0] && w[24] == Dashes[1];
    forall i | 0 <= i < |Replacements|
      ensures IsWatermark(Replacements[i].0)
    {
      var k := [20, 19, 15, 16, 23, 24][i];
      assert Keys(w)[k] == Replacements[i].0;
    }
  }

  /** A table made from the catalog by recomputing each entry's output with
      `f` rewrites a catalog character to `f` of it and its description, and
      keeps every other character. */
  lemma RewriteCatalog(x: char, f: (char, string) -> string)
    ensures RewriteChar(x, MapEntries(Watermarks, f)) ==
      if IsWatermark(x) then f(x, Describe(x)) else [x]
  {
    var t := MapEntries(Watermarks, f);
    assert Keys(t) == Keys(Watermarks);
    if IsWatermark(x) {
      DescribeAt(IndexOf(Keys(Watermarks), x));
    }
  }

  /** The characters the two passes substitute (quote, double quote, hyphen
      and space) are not catalog characters. */
  lemma OutputsPlain()
    ensures forall i :: 0 <= i < |Replacements| ==> !IsWatermark(Replacements[i].1[0])
    ensures !IsWatermark(' ')
  {
    forall c | c in "'\"- "
      ensures !IsWatermark(c)
    {
      if IsWatermark(c) {
        WatermarkNotInert(c);
      }
    }
  }
}
