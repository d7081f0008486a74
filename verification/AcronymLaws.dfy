/** Which words are restored, and to what, stated on characters alone. */
module AcronymLaws {
  import opened Common
  import opened Acronyms

  /** c is x, or the same letter in the other case: 32 codes apart. The Kelvin sign is a k. */
  predicate CaseOf(c: char, x: char) {
    || c == x
    || ('A' <= x <= 'Z' && c as int == x as int + 32)
    || ('a' <= x <= 'z' && c as int == x as int - 32)
    || (c == '\U{212A}' && (x == 'K' || x == 'k'))
  }

  ghost predicate VariantOf(core: string, a: string) {
    |core| == |a| && forall i :: 0 <= i < |a| ==> CaseOf(core[i], a[i])
  }

  /** Only the punctuation an acronym may be wrapped in. */
  ghost predicate Wrapping(s: string) {
    forall i :: 0 <= i < |s| ==> s[i] in "():;,./-'\""
  }

  /** The word is a spelling of a, wrapped. */
  ghost predicate Spells(word: string, lead: string, core: string, trail: string, a: string) {
    word == lead + core + trail && VariantOf(core, a) && Wrapping(lead) && Wrapping(trail)
  }

  /** The marks stripped are those, no more and no fewer; none is a letter, a digit or a space. */
  lemma MarksExactly(c: char)
    ensures IsMark(c) <==> c in "():;,./-'\""
    ensures IsMark(c) ==> !IsAlnum(c) && !IsSpace(c)
    ensures c in " \t\n\r" ==> IsSpace(c)
    ensures IsAlnum(c) ==> !IsSpace(c)
  {
  }

  /** White space is what Python splits at: these characters, no more and no fewer. */
  lemma SpacesExactly(c: char)
    ensures IsSpace(c) <==>
            || c in "\t\n\U{B}\U{C}\r\U{1C}\U{1D}\U{1E}\U{1F} \U{85}\U{A0}\U{1680}"
            || c in "\U{2000}\U{2001}\U{2002}\U{2003}\U{2004}\U{2005}\U{2006}\U{2007}\U{2008}\U{2009}\U{200A}"
            || c in "\U{2028}\U{2029}\U{202F}\U{205F}\U{3000}"
  {
  }

  /** No two entries differ only by case. */
  ghost predicate NoCaseTwins(table: seq<string>) {
    forall a, b :: a in table && b in table && VariantOf(b, a) ==> a == b
  }

  // ---------------------------------------------------------------- equal but for case

  lemma LowerMatchesExactly(c: char, x: char)
    requires IsAlnum(x)
    ensures Lower(c) == Lower(x) <==> CaseOf(c, x)
  {
  }

  lemma VariantExactly(core: string, a: string)
    requires Plain(a)
    ensures LowerAll(core) == LowerAll(a) <==> VariantOf(core, a)
  {
    forall i | 0 <= i < |a| && i < |core| ensures Lower(core[i]) == Lower(a[i]) <==> CaseOf(core[i], a[i]) {
      assert IsAlnum(a[i]);
      LowerMatchesExactly(core[i], a[i]);
    }
    if LowerAll(core) == LowerAll(a) {
      assert |core| == |a|;
      forall i | 0 <= i < |a| ensures CaseOf(core[i], a[i]) {
        assert LowerAll(core)[i] == LowerAll(a)[i];
      }
    }
    if VariantOf(core, a) {
      assert LowerAll(core) == LowerAll(a);
    }
  }

  /** What a letter or digit is a variant of stands between marks without being one. */
  lemma VariantIsBare(core: string, a: string)
    requires Plain(a) && VariantOf(core, a)
    ensures Bare(core)
  {
    forall i | 0 <= i < |a| ensures !IsMark(core[i]) {
      assert IsAlnum(a[i]) && CaseOf(core[i], a[i]);
    }
  }

  lemma FindInWrapping(lead: string, core: string, trail: string)
    requires AllMarks(lead) && Bare(core)
    ensures FindFrom(lead + core + trail, core, 0) == |lead|
  {
    CutAround(lead, core, trail);
    FindLocates(lead + core + trail, core, 0, |lead|);
  }

  // ---------------------------------------------------------------- one word

  /** Any spelling of a known acronym, in any wrapping, comes out as the acronym in the same wrapping. */
  lemma VariantIsRestored(table: seq<string>, a: string, lead: string, core: string, trail: string)
    requires PlainTable(table) && NoCaseTwins(table) && a in table
    requires VariantOf(core, a) && Wrapping(lead) && Wrapping(trail)
    ensures RestoreWord(table, lead + core + trail) == lead + a + trail
  {
    forall c ensures IsMark(c) <==> c in "():;,./-'\"" {
      MarksExactly(c);
    }
    VariantExactly(core, a);
    VariantIsBare(core, a);
    StripFindsCore(lead, core, trail);
    FindInWrapping(lead, core, trail);
    CanonicalFound(table, LowerAll(core));
    var r := Canonical(table, LowerAll(core)).value;
    VariantExactly(r, a);
    RestoreFromParts(table, lead, core, r, trail);
  }

  /** And only those words change: a core that spells no known acronym leaves the word as it is. */
  lemma OthersAreLeft(table: seq<string>, w: string)
    requires PlainTable(table) && forall a :: a in table ==> !VariantOf(Strip(w), a)
    ensures RestoreWord(table, w) == w
  {
    CanonicalFound(table, LowerAll(Strip(w)));
    if Canonical(table, LowerAll(Strip(w))).Some? {
      VariantExactly(Strip(w), Canonical(table, LowerAll(Strip(w))).value);
    }
  }

  // ---------------------------------------------------------------- the shipped table

  /** Written in capitals and digits. */
  ghost predicate Capitals(a: string) {
    forall i :: 0 <= i < |a| ==> !('a' <= a[i] <= 'z')
  }

  lemma PartInCapitals(part: seq<string>, a: string)
    requires part in {B_TO_CI, CS_TO_I, K_TO_MP, MR_TO_PA, PB_TO_PP, R_TO_T} && a in part
    ensures Capitals(a) || a == "MPs"
    ensures a != "MPS"
  {
  }

  lemma CapitalTwinsAreEqual(a: string, b: string)
    requires Plain(a) && Plain(b) && Capitals(a) && Capitals(b) && VariantOf(b, a)
    ensures a == b
  {
    forall i | 0 <= i < |a| ensures a[i] == b[i] {
      assert IsAlnum(a[i]) && IsAlnum(b[i]) && CaseOf(b[i], a[i]);
    }
  }

  /** Capitals equal to MPs but for case are MPS. */
  lemma MpsHasNoTwin(a: string)
    requires Plain(a) && Capitals(a) && (VariantOf("MPs", a) || VariantOf(a, "MPs"))
    ensures a == "MPS"
  {
    assert |a| == 3;
    assert IsAlnum(a[0]) && IsAlnum(a[1]) && IsAlnum(a[2]);
    if VariantOf("MPs", a) {
      assert CaseOf("MPs"[0], a[0]) && CaseOf("MPs"[1], a[1]) && CaseOf("MPs"[2], a[2]);
    } else {
      assert CaseOf(a[0], "MPs"[0]) && CaseOf(a[1], "MPs"[1]) && CaseOf(a[2], "MPs"[2]);
    }
    assert a == ['M', 'P', 'S'];
  }

  lemma AcronymsHaveNoTwins()
    ensures NoCaseTwins(ACRONYMS)
  {
    AcronymsArePlain();
    forall a | a in ACRONYMS ensures (Capitals(a) || a == "MPs") && a != "MPS" {
      var part :| part in {B_TO_CI, CS_TO_I, K_TO_MP, MR_TO_PA, PB_TO_PP, R_TO_T} && a in part;
      PartInCapitals(part, a);
    }
    forall a, b | a in ACRONYMS && b in ACRONYMS && VariantOf(b, a) ensures a == b {
      if Capitals(a) && Capitals(b) {
        CapitalTwinsAreEqual(a, b);
      } else if Capitals(a) {
        MpsHasNoTwin(a);
      } else if Capitals(b) {
        MpsHasNoTwin(b);
      }
    }
  }

  /**
   * In any name, each word that spells a shipped acronym in any case and wrapping
   * comes out as that acronym in its wrapping; every other word comes out as it went
   * in; and the words keep their number and order.
   */
  lemma NameIsRestored(name: string, i: nat)
    requires i < |Split(name)|
    ensures var (word, out) := (Split(name)[i], Split(Restored(ACRONYMS, Some(name))));
            && |out| == |Split(name)|
            && (forall a, lead, core, trail ::
                  a in ACRONYMS && Spells(word, lead, core, trail, a) ==> out[i] == lead + a + trail)
            && ((forall a :: a in ACRONYMS ==> !VariantOf(Strip(word), a)) ==> out[i] == word)
  {
    AcronymsArePlain();
    AcronymsHaveNoTwins();
    RestoredWords(ACRONYMS, name);
    var word := Split(name)[i];
    forall a, lead, core, trail | a in ACRONYMS && Spells(word, lead, core, trail, a)
      ensures RestoreWord(ACRONYMS, word) == lead + a + trail
    {
      VariantIsRestored(ACRONYMS, a, lead, core, trail);
    }
    if forall a :: a in ACRONYMS ==> !VariantOf(Strip(word), a) {
      OthersAreLeft(ACRONYMS, word);
    }
  }

  /** No name, the empty name and a blank one give nothing. */
  lemma NothingToRestore(table: seq<string>)
    ensures Restored(table, None) == "" && Restored(table, Some("")) == "" && Restored(table, Some(" ")) == ""
  {
    assert Split("") == [];
    assert " "[1..] == "";
  }

  lemma CbsAndCaeAreKnown()
    ensures "CBS" in ACRONYMS && "CAE" in ACRONYMS
  {
    assert B_TO_CI[4] == "CBS" && B_TO_CI[3] == "CAE";
    assert B_TO_CI[4] in B_TO_CI && B_TO_CI[3] in B_TO_CI;
  }

  lemma WordIsRestored(lead: string, core: string, trail: string, a: string)
    requires a in ACRONYMS && VariantOf(core, a) && Wrapping(lead) && Wrapping(trail)
    ensures RestoreWord(ACRONYMS, lead + core + trail) == lead + a + trail
  {
    AcronymsArePlain();
    AcronymsHaveNoTwins();
    VariantIsRestored(ACRONYMS, a, lead, core, trail);
  }

  lemma TwoWords(a: string, b: string)
    requires AreWords([a, b])
    ensures Join([a, b]) == a + " " + b && Split(a + " " + b) == [a, b]
  {
    assert [a, b][1..] == [b];
    SplitUndoesJoin([a, b]);
  }

  lemma TwoWordName(a: string, b: string, a': string, b': string)
    requires AreWords([a, b]) && AreWords([a', b'])
    requires RestoreWord(ACRONYMS, a) == a' && RestoreWord(ACRONYMS, b) == b'
    ensures Restored(ACRONYMS, Some(a + " " + b)) == a' + " " + b'
  {
    TwoWords(a, b);
    assert RestoreWords(ACRONYMS, [a, b]) == [a', b'];
    TwoWords(a', b');
  }

  lemma CbsIsRestored()
    ensures RestoreWord(ACRONYMS, "Cbs:") == "CBS:"
  {
    CbsAndCaeAreKnown();
    WordIsRestored("", "Cbs", ":", "CBS");
    assert "" + "Cbs" + ":" == "Cbs:" && "" + "CBS" + ":" == "CBS:";
  }

  lemma CaeIsRestored()
    ensures RestoreWord(ACRONYMS, "Cae") == "CAE"
  {
    CbsAndCaeAreKnown();
    WordIsRestored("", "Cae", "", "CAE");
    assert "" + "Cae" + "" == "Cae" && "" + "CAE" + "" == "CAE";
  }

  /** For example: title case goes, punctuation stays, and words are joined by one blank. */
  lemma TitleCaseIsUndone()
    ensures Restored(ACRONYMS, Some("Cbs: Cae")) == "CBS: CAE"
  {
    CbsIsRestored();
    CaeIsRestored();
    TwoWordName("Cbs:", "Cae", "CBS:", "CAE");
    assert "Cbs:" + " " + "Cae" == "Cbs: Cae" && "CBS:" + " " + "CAE" == "CBS: CAE";
  }
}
