/** How detection and cleaning relate, and the behaviour on sample texts. */
module Agreement {
  import opened Strings
  import opened Catalog
  import opened Labels
  import opened Typography
  import opened Detector
  import opened Cleaner

  /** Detecting in a cleaned text finds nothing and marks nothing. */
  lemma DetectAfterClean(s: string)
    ensures Mark(Normalize(Clean(s))) == Clean(s)
    ensures StatsOf(Normalize(Clean(s))) == map[]
  {
    CleanRemoves(s);
    PlainText(Clean(s));
  }

  /** Every character detection reports is gone from the cleaned text, and
      every character detection leaves unreported that is not in the
      filtered ranges is kept by cleaning. */
  lemma CleanDropsReported(s: string, c: char)
    requires c in s && !InFilterRange(c)
    requires c != '\'' && c != '"' && c != '-' && c != ' '
    ensures c in StatsOf(Normalize(s)) ==> c !in Clean(s)
    ensures !IsWatermark(c) ==> c !in StatsOf(Normalize(s)) && c in Clean(s)
  {
    CleanRemoves(s);
    StatsOfInput(s);
    if !IsWatermark(c) {
      CleanCount(s, c);
    }
  }

  const Sample: string := "a\U{200B}b\U{200B}c"

  lemma ZeroWidthSpaceEntry()
    ensures IsWatermark('\U{200B}') && Describe('\U{200B}') == ZeroWidthSpace.1
    ensures !IsTypographic('\U{200B}')
  {
    assert Watermarks[2] == ZeroWidthSpace;
    DescribeAt(2);
    TypographicKeys();
  }

  lemma ZeroWidthSpaceHex()
    ensures Hex(0x200B) == "200B"
  {
    assert Hex(0x2) == "2";
    assert Hex(0x20) == Hex(0x2) + "0";
    assert Hex(0x200) == Hex(0x20) + "0";
    assert Hex(0x200B) == Hex(0x200) + "B";
  }

  lemma ZeroWidthSpaceLabel()
    ensures Label('\U{200B}') == "U+200B"
  {
    ZeroWidthSpaceHex();
    assert Zeros(0) == [];
  }

  /** The letters of the sample hold no catalog character. */
  lemma LettersPlain()
    ensures forall x :: x in "abc" ==> !IsWatermark(x) && !InFilterRange(x)
  {
    forall x | x in "abc"
      ensures !IsWatermark(x) && !InFilterRange(x)
    {
      if IsWatermark(x) {
        WatermarkNotInert(x);
      }
    }
  }

  /** The letters of the sample are kept by cleaning. */
  lemma LettersClean()
    ensures Clean("a") == "a" && Clean("b") == "b" && Clean("c") == "c"
  {
    LettersPlain();
    CleanFixed("a");
    CleanFixed("b");
    CleanFixed("c");
  }

  /** The zero-width space of the sample is cleaned away. */
  lemma ZeroWidthSpaceClean()
    ensures Clean(['\U{200B}']) == []
  {
    ZeroWidthSpaceEntry();
    FlatMapSingle(CleanChar, '\U{200B}');
  }

  /** Two zero-width spaces between letters are cleaned away. */
  lemma SampleClean()
    ensures Clean(Sample) == "abc"
  {
    var z := ['\U{200B}'];
    LettersClean();
    ZeroWidthSpaceClean();
    assert Sample == "a" + z + "b" + z + "c";
    CleanAppend("a" + z + "b" + z, "c");
    CleanAppend("a" + z + "b", z);
    CleanAppend("a" + z, "b");
    CleanAppend("a", z);
  }

  /** The zero-width space is the one catalog character of the sample, and
      it occurs twice. */
  lemma SampleCharacters()
    ensures forall c :: c in Sample && IsWatermark(c) <==> c == '\U{200B}'
    ensures Count(Sample, '\U{200B}') == 2
  {
    ZeroWidthSpaceEntry();
    LettersPlain();
    forall c | c in Sample
      ensures c in "abc" || c == '\U{200B}'
    {
    }
  }

  /** A text with exactly one kind of non-typographic catalog character gets
      exactly one stat. */
  lemma SingleStat(text: string, c: char)
    requires !IsTypographic(c)
    requires forall x :: x in text && IsWatermark(x) <==> x == c
    ensures StatsOf(Normalize(text)) == map[c := Stat(Describe(c), Count(text, c), Label(c))]
  {
    SingleStatKeys(text, c);
    SingleStatValue(text, c);
  }

  lemma SingleStatKeys(text: string, c: char)
    requires forall x :: x in text && IsWatermark(x) <==> x == c
    ensures StatsOf(Normalize(text)).Keys == {c} || StatsOf(Normalize(text)).Keys == {}
  {
    StatsOfInput(text);
  }

  lemma SingleStatValue(text: string, c: char)
    requires !IsTypographic(c) && IsWatermark(c) && c in text
    ensures c in StatsOf(Normalize(text))
    ensures StatsOf(Normalize(text))[c] == Stat(Describe(c), Count(text, c), Label(c))
  {
    WatermarkNotInert(c);
    NormalizeCount(text, c);
  }

  /** Detection reports the zero-width space of the sample twice. */
  lemma SampleStats()
    ensures StatsOf(Normalize(Sample)) ==
      map['\U{200B}' := Stat(ZeroWidthSpace.1, 2, "U+200B")]
  {
    ZeroWidthSpaceEntry();
    ZeroWidthSpaceLabel();
    SampleCharacters();
    SingleStat(Sample, '\U{200B}');
  }
}
