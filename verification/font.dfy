/**
 * `detectFont` of dist/utils/font.js: the font family for a text, chosen by the
 * first Unicode block, in a fixed order, that some character of the text falls in.
 */
module Font {

  /** `/[\uLO-\uHI]/.test(text)`: some character of the text lies in the inclusive range. */
  predicate HasCharIn(text: string, lo: int, hi: int) {
    text != [] && (lo <= text[0] as int <= hi || HasCharIn(text[1..], lo, hi))
  }

  /** The chain of range tests, first match wins. */
  function DetectFont(text: string): string {
    if HasCharIn(text, 0x0C01, 0x0C7F) then "telugu"
    else if HasCharIn(text, 0x0900, 0x097F) then "devanagari"
    else if HasCharIn(text, 0x0B80, 0x0BFF) then "tamil"
    else if HasCharIn(text, 0x0C80, 0x0CFF) then "kannada"
    else if HasCharIn(text, 0x0D00, 0x0D7F) then "malayalam"
    else if HasCharIn(text, 0x0980, 0x09FF) then "bengali"
    else if HasCharIn(text, 0x0A80, 0x0AFF) then "gujarati"
    else if HasCharIn(text, 0x0A00, 0x0A7F) then "gurmukhi"
    else if HasCharIn(text, 0x1100, 0x11FF) then "korean"
    else if HasCharIn(text, 0x3040, 0x309F) then "japanese"
    else if HasCharIn(text, 0x30A0, 0x30FF) then "japanese"
    else if HasCharIn(text, 0x4E00, 0x9FFF) then "chinese"
    else if HasCharIn(text, 0x0600, 0x06FF) then "arabic"
    else if HasCharIn(text, 0x0400, 0x04FF) then "cyrillic"
    else if HasCharIn(text, 0x0100, 0x024F) then "latin_extended"
    else "default"
  }

  // ---------------------------------------------------------------------------
  // The same rule as a table

  datatype Block = Block(lo: int, hi: int, font: string)

  /** The blocks in precedence order. */
  const Blocks: seq<Block> := [
    Block(0x0C01, 0x0C7F, "telugu"),
    Block(0x0900, 0x097F, "devanagari"),
    Block(0x0B80, 0x0BFF, "tamil"),
    Block(0x0C80, 0x0CFF, "kannada"),
    Block(0x0D00, 0x0D7F, "malayalam"),
    Block(0x0980, 0x09FF, "bengali"),
    Block(0x0A80, 0x0AFF, "gujarati"),
    Block(0x0A00, 0x0A7F, "gurmukhi"),
    Block(0x1100, 0x11FF, "korean"),
    Block(0x3040, 0x309F, "japanese"),
    Block(0x30A0, 0x30FF, "japanese"),
    Block(0x4E00, 0x9FFF, "chinese"),
    Block(0x0600, 0x06FF, "arabic"),
    Block(0x0400, 0x04FF, "cyrillic"),
    Block(0x0100, 0x024F, "latin_extended")
  ]

  predicate Hits(text: string, b: Block) {
    HasCharIn(text, b.lo, b.hi)
  }

  /** The position of the first block from `k` on that the text hits, `|Blocks|` when none does. */
  function FirstHitFrom(text: string, k: nat): (i: nat)
    requires k <= |Blocks|
    decreases |Blocks| - k
    ensures k <= i <= |Blocks|
    ensures i < |Blocks| ==> Hits(text, Blocks[i])
    ensures forall j :: k <= j < i ==> !Hits(text, Blocks[j])
  {
    if k == |Blocks| then k
    else if Hits(text, Blocks[k]) then k
    else FirstHitFrom(text, k + 1)
  }

  function FirstHit(text: string): (i: nat)
    ensures i <= |Blocks|
  {
    FirstHitFrom(text, 0)
  }

  /** The reference rule: the font of the first block hit, or 'default'. */
  function FontByTable(text: string): string {
    var i := FirstHit(text);
    if i < |Blocks| then Blocks[i].font else "default"
  }

  /** The table read as a chain of tests from block `k` on. */
  function ChainFrom(text: string, k: nat): string
    requires k <= |Blocks|
    decreases |Blocks| - k
  {
    if k == |Blocks| then "default"
    else if Hits(text, Blocks[k]) then Blocks[k].font
    else ChainFrom(text, k + 1)
  }

  /** Reading the table as a chain picks the font of the first block hit from `k` on. */
  lemma {:induction false} ChainFromIsFirstHit(text: string, k: nat)
    requires k <= |Blocks|
    decreases |Blocks| - k
    ensures var i := FirstHitFrom(text, k); ChainFrom(text, k) == if i < |Blocks| then Blocks[i].font else "default"
  {
    if k < |Blocks| && !Hits(text, Blocks[k]) {
      ChainFromIsFirstHit(text, k + 1);
    }
  }

  /** The written chain of tests is the table's chain, one block at a time. */
  lemma DetectFontIsChain(text: string)
    ensures DetectFont(text) == ChainFrom(text, 0)
  {
    assert ChainFrom(text, 14) == if HasCharIn(text, 0x0100, 0x024F) then "latin_extended" else "default";
    assert ChainFrom(text, 13) == if HasCharIn(text, 0x0400, 0x04FF) then "cyrillic" else ChainFrom(text, 14);
    assert ChainFrom(text, 12) == if HasCharIn(text, 0x0600, 0x06FF) then "arabic" else ChainFrom(text, 13);
    assert ChainFrom(text, 11) == if HasCharIn(text, 0x4E00, 0x9FFF) then "chinese" else ChainFrom(text, 12);
    assert ChainFrom(text, 10) == if HasCharIn(text, 0x30A0, 0x30FF) then "japanese" else ChainFrom(text, 11);
    assert ChainFrom(text, 9) == if HasCharIn(text, 0x3040, 0x309F) then "japanese" else ChainFrom(text, 10);
    assert ChainFrom(text, 8) == if HasCharIn(text, 0x1100, 0x11FF) then "korean" else ChainFrom(text, 9);
    assert ChainFrom(text, 7) == if HasCharIn(text, 0x0A00, 0x0A7F) then "gurmukhi" else ChainFrom(text, 8);
    assert ChainFrom(text, 6) == if HasCharIn(text, 0x0A80, 0x0AFF) then "gujarati" else ChainFrom(text, 7);
    assert ChainFrom(text, 5) == if HasCharIn(text, 0x0980, 0x09FF) then "bengali" else ChainFrom(text, 6);
    assert ChainFrom(text, 4) == if HasCharIn(text, 0x0D00, 0x0D7F) then "malayalam" else ChainFrom(text, 5);
    assert ChainFrom(text, 3) == if HasCharIn(text, 0x0C80, 0x0CFF) then "kannada" else ChainFrom(text, 4);
    assert ChainFrom(text, 2) == if HasCharIn(text, 0x0B80, 0x0BFF) then "tamil" else ChainFrom(text, 3);
    assert ChainFrom(text, 1) == if HasCharIn(text, 0x0900, 0x097F) then "devanagari" else ChainFrom(text, 2);
    assert ChainFrom(text, 0) == if HasCharIn(text, 0x0C01, 0x0C7F) then "telugu" else ChainFrom(text, 1);
  }

  /** The chain of tests and the table agree on every text. */
  lemma DetectFontIsFirstHit(text: string)
    ensures DetectFont(text) == FontByTable(text)
  {
    DetectFontIsChain(text);
    ChainFromIsFirstHit(text, 0);
  }

  /** The result is 'default' exactly when no character falls in any block. */
  lemma DefaultIffNoBlockHit(text: string)
    ensures DetectFont(text) == "default" <==> forall j :: 0 <= j < |Blocks| ==> !Hits(text, Blocks[j])
  {
    DetectFontIsFirstHit(text);
    assert forall j :: 0 <= j < |Blocks| ==> Blocks[j].font != "default";
  }

  /** A range test fails exactly when no character of the text lies in the range. */
  lemma {:induction false} NoCharIn(text: string, lo: int, hi: int)
    ensures !HasCharIn(text, lo, hi) <==> forall i :: 0 <= i < |text| ==> !(lo <= text[i] as int <= hi)
  {
    if text != [] {
      NoCharIn(text[1..], lo, hi);
      assert forall i :: 1 <= i < |text| ==> text[i] == text[1..][i - 1];
    }
  }

  /** Plain ASCII text always gets the default font. */
  lemma AsciiIsDefault(text: string)
    requires forall i :: 0 <= i < |text| ==> text[i] as int < 0x80
    ensures DetectFont(text) == "default"
  {
    forall j | 0 <= j < |Blocks|
      ensures !Hits(text, Blocks[j])
    {
      NoCharIn(text, Blocks[j].lo, Blocks[j].hi);
    }
    DefaultIffNoBlockHit(text);
  }

  /** Hiragana or Katakana, with nothing from an earlier block, gives 'japanese'. */
  lemma KanaIsJapanese(text: string)
    requires HasCharIn(text, 0x3040, 0x309F) || HasCharIn(text, 0x30A0, 0x30FF)
    requires forall j :: 0 <= j < 9 ==> !Hits(text, Blocks[j])
    ensures DetectFont(text) == "japanese"
  {
    assert !Hits(text, Blocks[0]) && !Hits(text, Blocks[1]) && !Hits(text, Blocks[2]);
    assert !Hits(text, Blocks[3]) && !Hits(text, Blocks[4]) && !Hits(text, Blocks[5]);
    assert !Hits(text, Blocks[6]) && !Hits(text, Blocks[7]) && !Hits(text, Blocks[8]);
  }

  /** A range test depends only on which characters occur. */
  lemma {:induction false} HasCharInIffMember(text: string, lo: int, hi: int)
    ensures HasCharIn(text, lo, hi) <==> exists c :: c in text && lo <= c as int <= hi
  {
    if text != [] {
      HasCharInIffMember(text[1..], lo, hi);
      if lo <= text[0] as int <= hi {
        assert text[0] in text;
      } else {
        forall c | c in text && lo <= c as int <= hi
          ensures c in text[1..]
        {
          var i :| 0 <= i < |text| && text[i] == c;
          assert i != 0;
          assert text[1..][i - 1] == c;
        }
        forall c | c in text[1..]
          ensures c in text
        {
          var i :| 0 <= i < |text[1..]| && text[1..][i] == c;
          assert text[i + 1] == c;
        }
      }
    }
  }

  /** The font depends only on the set of characters, not on their order or count. */
  lemma SameCharactersSameFont(a: string, b: string)
    requires forall c :: c in a <==> c in b
    ensures DetectFont(a) == DetectFont(b)
  {
    forall j | 0 <= j < |Blocks|
      ensures Hits(a, Blocks[j]) == Hits(b, Blocks[j])
    {
      HasCharInIffMember(a, Blocks[j].lo, Blocks[j].hi);
      HasCharInIffMember(b, Blocks[j].lo, Blocks[j].hi);
    }
    DetectFontIsFirstHit(a);
    DetectFontIsFirstHit(b);
    FirstHitDeterminedByHits(a, b, 0);
  }

  /** Two texts hitting the same blocks have the same first hit. */
  lemma {:induction false} FirstHitDeterminedByHits(a: string, b: string, k: nat)
    requires k <= |Blocks|
    requires forall j :: 0 <= j < |Blocks| ==> Hits(a, Blocks[j]) == Hits(b, Blocks[j])
    decreases |Blocks| - k
    ensures FirstHitFrom(a, k) == FirstHitFrom(b, k)
  {
    if k < |Blocks| && !Hits(a, Blocks[k]) {
      FirstHitDeterminedByHits(a, b, k + 1);
    }
  }

  /** Appending characters never moves the first hit later in the precedence order. */
  lemma AppendNeverLater(a: string, b: string)
    ensures FirstHit(a + b) <= FirstHit(a)
  {
    var i := FirstHit(a);
    if i < |Blocks| {
      HasCharInIffMember(a, Blocks[i].lo, Blocks[i].hi);
      HasCharInIffMember(a + b, Blocks[i].lo, Blocks[i].hi);
      var c :| c in a && Blocks[i].lo <= c as int <= Blocks[i].hi;
      assert c in a + b;
      FirstHitAtMost(a + b, 0, i);
    }
  }

  /** A block the text hits bounds its first hit. */
  lemma {:induction false} FirstHitAtMost(text: string, k: nat, i: nat)
    requires k <= i < |Blocks| && Hits(text, Blocks[i])
    decreases i - k
    ensures FirstHitFrom(text, k) <= i
  {
    if k < i && !Hits(text, Blocks[k]) {
      FirstHitAtMost(text, k + 1, i);
    }
  }
}
