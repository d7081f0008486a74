/**
 * Restoring the capitals of known acronyms in an organisational unit's name:
 * split at white space, strip punctuation, look the core up, put it back, join.
 */
module Acronyms {
  import opened Common

  const B_TO_CI: seq<string> :=
    ["BO", "BP1", "BP2", "CAE", "CBS", "CCSC", "CEO", "CFO", "CIO", "CIS", "CISO"]

  const CS_TO_I: seq<string> :=
    ["CS", "DS", "ECM", "ERP", "FMO", "HC", "HR", "ICT", "IP", "IR", "IRP", "ISS", "IT"]

  const K_TO_MP: seq<string> :=
    ["KIS", "LOGB", "LR", "LS", "LSO", "LSS", "MIS", "MP", "MPs"]

  const MR_TO_PA: seq<string> :=
    ["MR", "MSR", "MSS", "NA", "NCOP", "OM", "OISD", "OSTP", "PA"]

  const PB_TO_PP: seq<string> :=
    ["PBO", "PCS", "PCSD", "PDO", "PISC", "POSA", "PMO", "PP", "PPS", "PM", "PMU"]

  const R_TO_T: seq<string> :=
    ["RM", "RMI", "RS", "SC", "SCM", "SMG", "SS", "TAO", "TM"]

  /** The known acronyms. */
  const ACRONYMS: seq<string> := B_TO_CI + CS_TO_I + K_TO_MP + MR_TO_PA + PB_TO_PP + R_TO_T

  // ---------------------------------------------------------------- characters

  /** Python's white space for splitting. */
  predicate IsSpace(c: char) {
    || '\t' <= c <= '\r'
    || '\U{1C}' <= c <= ' '
    || c == '\U{85}' || c == '\U{A0}' || c == '\U{1680}'
    || '\U{2000}' <= c <= '\U{200A}'
    || c == '\U{2028}' || c == '\U{2029}' || c == '\U{202F}' || c == '\U{205F}' || c == '\U{3000}'
  }

  /** The punctuation that may surround an acronym. */
  predicate IsMark(c: char) {
    || c == '(' || c == ')' || c == ':' || c == ';' || c == ',' || c == '.' || c == '/' || c == '-'
    || c == '\'' || c == '"'
  }

  predicate IsAlnum(c: char) {
    'A' <= c <= 'Z' || 'a' <= c <= 'z' || '0' <= c <= '9'
  }

  /**
   * Lower case as far as the table can tell: only the capital letters and the
   * Kelvin sign have an ASCII letter as their lower case.
   */
  function Lower(c: char): char {
    if 'A' <= c <= 'Z' then (c as int + 32) as char
    else if c == '\U{212A}' then 'k'
    else c
  }

  function LowerAll(s: string): (r: string)
    ensures |r| == |s| && forall i :: 0 <= i < |s| ==> r[i] == Lower(s[i])
  {
    seq(|s|, i requires 0 <= i < |s| => Lower(s[i]))
  }

  ghost predicate NoSpace(s: string) {
    forall i :: 0 <= i < |s| ==> !IsSpace(s[i])
  }

  // ---------------------------------------------------------------- library text operations

  /** Text without its leading marks. */
  function StripLeft(w: string): string {
    if w != "" && IsMark(w[0]) then StripLeft(w[1..]) else w
  }

  /** Text without its trailing marks. */
  function StripRight(w: string): string {
    if w != "" && IsMark(w[|w| - 1]) then StripRight(w[..|w| - 1]) else w
  }

  function Strip(w: string): string {
    StripRight(StripLeft(w))
  }

  /** The first position at or after i where part occurs; the length when there is none. */
  function FindFrom(w: string, part: string, i: nat): nat
    requires i <= |w|
    decreases |w| - i
  {
    if i == |w| || part <= w[i..] then i else FindFrom(w, part, i + 1)
  }

  /** The table entry whose lower case is key. */
  function Canonical(table: seq<string>, key: string): Option<string> {
    if table == [] then None
    else if LowerAll(table[0]) == key then Some(table[0])
    else Canonical(table[1..], key)
  }

  /** Words of s, the first of which continues the given beginning. */
  function SplitFrom(s: string, word: string): seq<string> {
    if s == "" then (if word == "" then [] else [word])
    else if IsSpace(s[0]) then (if word == "" then [] else [word]) + SplitFrom(s[1..], "")
    else SplitFrom(s[1..], word + [s[0]])
  }

  function Split(s: string): seq<string> {
    SplitFrom(s, "")
  }

  function Join(ws: seq<string>): string {
    if ws == [] then "" else if |ws| == 1 then ws[0] else ws[0] + " " + Join(ws[1..])
  }

  // ---------------------------------------------------------------- one word

  /** The rewriting of one word, as the loop body does it. */
  function RestoreWord(table: seq<string>, w: string): string {
    var core := Strip(w);
    var replacement := Canonical(table, LowerAll(core));
    if replacement.None? then w
    else
      var start := FindFrom(w, core, 0);
      if start + |core| <= |w| then w[..start] + replacement.value + w[start + |core|..] else w
  }

  /** A word of letters and digits. */
  ghost predicate Plain(a: string) {
    a != "" && forall i :: 0 <= i < |a| ==> IsAlnum(a[i])
  }

  ghost predicate PlainTable(table: seq<string>) {
    forall a :: a in table ==> Plain(a)
  }

  // ---------------------------------------------------------------- one word

  lemma LowerConcat(a: string, b: string)
    ensures LowerAll(a + b) == LowerAll(a) + LowerAll(b)
  {
  }

  ghost predicate AllMarks(s: string) {
    forall i :: 0 <= i < |s| ==> IsMark(s[i])
  }

  /** Text begins and ends with something other than a mark. */
  ghost predicate Bare(s: string) {
    s != "" && !IsMark(s[0]) && !IsMark(s[|s| - 1])
  }

  /** Text that begins without a mark is found right behind the marks before it. */
  lemma {:induction false} FindLocates(w: string, core: string, i: nat, l: nat)
    requires core != "" && !IsMark(core[0])
    requires i <= l <= |w| && core <= w[l..] && AllMarks(w[..l])
    ensures FindFrom(w, core, i) == l
    decreases l - i
  {
    if i < l {
      assert w[i..][0] == w[i] == w[..l][i];
      FindLocates(w, core, i + 1, l);
    }
  }

  lemma ConcatAssociates(a: string, b: string, c: string)
    ensures (a + b) + c == a + (b + c)
  {
  }

  lemma CutAround(lead: string, core: string, trail: string)
    ensures var w := lead + core + trail;
            w[..|lead|] == lead && w[|lead| + |core|..] == trail && w[|lead|..] == core + trail
  {
  }

  lemma {:induction false} StripLeftShape(w: string) returns (lead: string)
    ensures w == lead + StripLeft(w) && AllMarks(lead)
    ensures StripLeft(w) != "" ==> !IsMark(StripLeft(w)[0])
  {
    lead := "";
    if w != "" && IsMark(w[0]) {
      var inner := StripLeftShape(w[1..]);
      assert w == [w[0]] + w[1..];
      ConcatAssociates([w[0]], inner, StripLeft(w[1..]));
      lead := [w[0]] + inner;
    }
  }

  lemma OneMoreMark(core: string, marks: string, w: string)
    requires w != "" && w[..|w| - 1] == core + marks && AllMarks(marks) && IsMark(w[|w| - 1])
    ensures w == core + (marks + [w[|w| - 1]]) && AllMarks(marks + [w[|w| - 1]])
  {
    assert w == w[..|w| - 1] + [w[|w| - 1]];
  }

  lemma {:induction false} StripRightShape(w: string) returns (trail: string)
    ensures w == StripRight(w) + trail && AllMarks(trail)
    ensures StripRight(w) != "" ==> !IsMark(StripRight(w)[|StripRight(w)| - 1])
  {
    if w != "" && IsMark(w[|w| - 1]) {
      var n := |w| - 1;
      var inner := StripRightShape(w[..n]);
      OneMoreMark(StripRight(w[..n]), inner, w);
      trail := inner + [w[n]];
    } else {
      trail := "";
    }
  }

  /** A word is its leading marks, its core and its trailing marks, and find locates the core. */
  lemma WordShape(w: string) returns (lead: string, trail: string)
    ensures w == lead + Strip(w) + trail && AllMarks(lead) && AllMarks(trail)
    ensures Strip(w) != "" ==> Bare(Strip(w)) && FindFrom(w, Strip(w), 0) == |lead|
  {
    lead := StripLeftShape(w);
    var left := StripLeft(w);
    trail := StripRightShape(left);
    var core := Strip(w);
    ConcatAssociates(lead, core, trail);
    CutAround(lead, core, trail);
    if core != "" {
      assert core[0] == left[0];
      FindLocates(w, core, 0, |lead|);
    }
  }

  lemma {:induction false} StripLeftSkips(lead: string, rest: string)
    requires AllMarks(lead) && rest != "" && !IsMark(rest[0])
    ensures StripLeft(lead + rest) == rest
  {
    if lead == "" {
      assert lead + rest == rest;
    } else {
      assert (lead + rest)[1..] == lead[1..] + rest;
      StripLeftSkips(lead[1..], rest);
    }
  }

  lemma {:induction false} StripRightSkips(core: string, trail: string)
    requires AllMarks(trail) && core != "" && !IsMark(core[|core| - 1])
    ensures StripRight(core + trail) == core
  {
    if trail == "" {
      assert core + trail == core;
    } else {
      assert (core + trail)[..|core + trail| - 1] == core + trail[..|trail| - 1];
      StripRightSkips(core, trail[..|trail| - 1]);
    }
  }

  /** Marks around a bare core do not change what is stripped. */
  lemma StripFindsCore(lead: string, core: string, trail: string)
    requires Bare(core) && AllMarks(lead) && AllMarks(trail)
    ensures Strip(lead + core + trail) == core
  {
    assert lead + core + trail == lead + (core + trail);
    StripLeftSkips(lead, core + trail);
    StripRightSkips(core, trail);
  }

  lemma {:induction false} CanonicalFound(table: seq<string>, key: string)
    ensures Canonical(table, key).Some? ==>
              Canonical(table, key).value in table && LowerAll(Canonical(table, key).value) == key
    ensures Canonical(table, key).None? ==> forall a :: a in table ==> LowerAll(a) != key
  {
    if table != [] {
      CanonicalFound(table[1..], key);
      assert table == [table[0]] + table[1..];
    }
  }

  predicate SameButForCase(a: string, b: string) {
    LowerAll(a) == LowerAll(b)
  }

  lemma RestoreFromParts(table: seq<string>, lead: string, core: string, r: string, trail: string)
    requires Strip(lead + core + trail) == core && Canonical(table, LowerAll(core)) == Some(r)
    requires FindFrom(lead + core + trail, core, 0) == |lead|
    ensures RestoreWord(table, lead + core + trail) == lead + r + trail
  {
    CutAround(lead, core, trail);
  }

  lemma PlainIsBare(a: string)
    requires Plain(a)
    ensures Bare(a)
  {
    assert IsAlnum(a[0]) && IsAlnum(a[|a| - 1]);
  }

  lemma LowerKeepsLength(a: string, b: string)
    requires LowerAll(a) == LowerAll(b)
    ensures |a| == |b|
  {
    assert |LowerAll(a)| == |a| && |LowerAll(b)| == |b|;
  }

  /** The parts of a rewritten word. */
  lemma RewrittenParts(table: seq<string>, w: string) returns (lead: string, core: string, r: string, trail: string)
    requires PlainTable(table)
    requires Canonical(table, LowerAll(Strip(w))).Some?
    ensures core == Strip(w) && Canonical(table, LowerAll(core)) == Some(r)
    ensures w == lead + core + trail && RestoreWord(table, w) == lead + r + trail
    ensures Plain(r) && Bare(r) && LowerAll(r) == LowerAll(core)
    ensures AllMarks(lead) && AllMarks(trail)
    ensures FindFrom(w, core, 0) == |lead|
  {
    core := Strip(w);
    CanonicalFound(table, LowerAll(core));
    r := Canonical(table, LowerAll(core)).value;
    assert Plain(r);
    PlainIsBare(r);
    LowerKeepsLength(r, core);
    lead, trail := WordShape(w);
    RestoreFromParts(table, lead, core, r, trail);
  }

  lemma PartsKeepCase(lead: string, core: string, r: string, trail: string)
    requires LowerAll(r) == LowerAll(core)
    ensures SameButForCase(lead + r + trail, lead + core + trail)
  {
    LowerConcat(lead + r, trail);
    LowerConcat(lead, r);
    LowerConcat(lead + core, trail);
    LowerConcat(lead, core);
  }

  lemma PartsHaveNoSpace(lead: string, core: string, r: string, trail: string)
    requires NoSpace(lead + core + trail) && Plain(r)
    ensures NoSpace(lead + r + trail)
  {
    var w := lead + core + trail;
    assert forall i :: 0 <= i < |lead| ==> lead[i] == w[i];
    assert forall i :: 0 <= i < |trail| ==> trail[i] == w[|lead + core| + i];
  }

  /** Rewriting a word changes letter case only, and only inside a known acronym. */
  lemma RestoreWordKeeps(table: seq<string>, w: string)
    requires PlainTable(table)
    ensures SameButForCase(RestoreWord(table, w), w)
    ensures NoSpace(w) ==> NoSpace(RestoreWord(table, w))
    ensures Canonical(table, LowerAll(Strip(w))).None? ==> RestoreWord(table, w) == w
    ensures Canonical(table, LowerAll(Strip(w))).Some? ==>
              Strip(RestoreWord(table, w)) == Canonical(table, LowerAll(Strip(w))).value
  {
    if Canonical(table, LowerAll(Strip(w))).Some? {
      var lead, core, r, trail := RewrittenParts(table, w);
      PartsKeepCase(lead, core, r, trail);
      StripFindsCore(lead, r, trail);
      if NoSpace(w) {
        PartsHaveNoSpace(lead, core, r, trail);
      }
    }
  }

  /** Rewriting a word twice is rewriting it once. */
  lemma RestoreWordIdempotent(table: seq<string>, w: string)
    requires PlainTable(table)
    ensures RestoreWord(table, RestoreWord(table, w)) == RestoreWord(table, w)
  {
    RestoreWordKeeps(table, w);
    if Canonical(table, LowerAll(Strip(w))).Some? {
      var lead, core, r, trail := RewrittenParts(table, w);
      var lead', core', r', trail' := RewrittenParts(table, RestoreWord(table, w));
      assert core' == r == r';
    }
  }

  // ---------------------------------------------------------------- words and text

  ghost predicate AreWords(ws: seq<string>) {
    forall i :: 0 <= i < |ws| ==> ws[i] != "" && NoSpace(ws[i])
  }

  lemma {:induction false} SplitYieldsWords(s: string, word: string)
    requires NoSpace(word)
    ensures AreWords(SplitFrom(s, word))
    decreases |s|
  {
    if s == "" {
    } else if IsSpace(s[0]) {
      SplitYieldsWords(s[1..], "");
    } else {
      SplitYieldsWords(s[1..], word + [s[0]]);
    }
  }

  /** Leading characters that are not spaces join the word begun. */
  lemma {:induction false} SplitAbsorbs(w: string, rest: string, word: string)
    requires NoSpace(w)
    ensures SplitFrom(w + rest, word) == SplitFrom(rest, word + w)
    decreases |w|
  {
    if w == "" {
      assert w + rest == rest && word + w == word;
    } else {
      assert (w + rest)[1..] == w[1..] + rest;
      SplitAbsorbs(w[1..], rest, word + [w[0]]);
      assert word + [w[0]] + w[1..] == word + w;
    }
  }

  /** Splitting what was joined gives the words back. */
  lemma {:induction false} SplitUndoesJoin(ws: seq<string>)
    requires AreWords(ws)
    ensures Split(Join(ws)) == ws
  {
    if |ws| == 1 {
      assert ws[0] + "" == ws[0];
      SplitAbsorbs(ws[0], "", "");
      assert "" + ws[0] == ws[0];
    } else if |ws| > 1 {
      var rest := Join(ws[1..]);
      assert ws[0] + " " + rest == ws[0] + (" " + rest);
      SplitAbsorbs(ws[0], " " + rest, "");
      assert "" + ws[0] == ws[0];
      assert (" " + rest)[1..] == rest;
      SplitUndoesJoin(ws[1..]);
      assert ws == [ws[0]] + ws[1..];
    }
  }

  /** The text with its white space taken out. */
  function Squeezed(s: string): string {
    if s == "" then "" else if IsSpace(s[0]) then Squeezed(s[1..]) else [s[0]] + Squeezed(s[1..])
  }

  function Concat(ws: seq<string>): string {
    if ws == [] then "" else ws[0] + Concat(ws[1..])
  }

  lemma ConcatFront(w: string, ws: seq<string>)
    ensures Concat([w] + ws) == w + Concat(ws)
  {
    assert ([w] + ws)[1..] == ws;
  }

  lemma {:induction false} SplitFromKeeps(s: string, word: string)
    ensures Concat(SplitFrom(s, word)) == word + Squeezed(s)
    decreases |s|
  {
    if s == "" {
      ConcatFront(word, []);
      assert [word] + [] == [word];
    } else if IsSpace(s[0]) {
      SplitFromKeeps(s[1..], "");
      var tail := SplitFrom(s[1..], "");
      ConcatFront(word, tail);
      assert [] + tail == tail;
      assert "" + Squeezed(s[1..]) == Squeezed(s[1..]);
    } else {
      SplitFromKeeps(s[1..], word + [s[0]]);
      ConcatAssociates(word, [s[0]], Squeezed(s[1..]));
    }
  }

  /** No character is lost in splitting but white space. */
  lemma SplitKeepsCharacters(s: string)
    ensures Concat(Split(s)) == Squeezed(s)
  {
    SplitFromKeeps(s, "");
    assert "" + Squeezed(s) == Squeezed(s);
  }

  // ---------------------------------------------------------------- the whole name

  function RestoreWords(table: seq<string>, ws: seq<string>): (r: seq<string>)
    ensures |r| == |ws| && forall i :: 0 <= i < |ws| ==> r[i] == RestoreWord(table, ws[i])
  {
    seq(|ws|, i requires 0 <= i < |ws| => RestoreWord(table, ws[i]))
  }

  function Restored(table: seq<string>, name: Option<string>): string {
    Join(RestoreWords(table, Split(if name.Some? then name.value else "")))
  }

  lemma RestoreWordsStep(table: seq<string>, ws: seq<string>, i: nat)
    requires i < |ws|
    ensures RestoreWords(table, ws[..i + 1]) == RestoreWords(table, ws[..i]) + [RestoreWord(table, ws[i])]
  {
  }

  method RestoreAcronymCase(table: seq<string>, name: Option<string>) returns (r: string)
    requires PlainTable(table)
    ensures r == Restored(table, name)
  {
    var words := Split(if name.Some? then name.value else "");
    var restored: seq<string> := [];
    for i := 0 to |words|
      invariant restored == RestoreWords(table, words[..i])
    {
      var word := words[i];
      RestoreWordsStep(table, words, i);
      var core := Strip(word);
      var replacement := Canonical(table, LowerAll(core));
      if replacement.None? {
        restored := restored + [word];
        continue;
      }
      ghost var before, inside, canonical, after := RewrittenParts(table, word);
      var start := FindFrom(word, core, 0);
      var lead := word[..start];
      var trail := word[start + |core|..];
      restored := restored + [lead + replacement.value + trail];
    }
    assert words[..|words|] == words;
    return Join(restored);
  }

  /** The result has the rewritten words of the input, and nothing else, between single spaces. */
  lemma RestoredWords(table: seq<string>, s: string)
    requires PlainTable(table)
    ensures Split(Restored(table, Some(s))) == RestoreWords(table, Split(s))
  {
    SplitYieldsWords(s, "");
    var ws := Split(s);
    forall i | 0 <= i < |ws| ensures RestoreWord(table, ws[i]) != "" && NoSpace(RestoreWord(table, ws[i])) {
      RestoreWordKeeps(table, ws[i]);
      assert |LowerAll(RestoreWord(table, ws[i]))| == |LowerAll(ws[i])|;
    }
    SplitUndoesJoin(RestoreWords(table, ws));
  }

  /** Restoring twice is restoring once. */
  lemma RestoredIdempotent(table: seq<string>, s: string)
    requires PlainTable(table)
    ensures Restored(table, Some(Restored(table, Some(s)))) == Restored(table, Some(s))
  {
    RestoredWords(table, s);
    var ws := Split(s);
    forall i | 0 <= i < |ws| ensures RestoreWord(table, RestoreWord(table, ws[i])) == RestoreWord(table, ws[i]) {
      RestoreWordIdempotent(table, ws[i]);
    }
    assert RestoreWords(table, RestoreWords(table, ws)) == RestoreWords(table, ws);
  }

  lemma {:induction false} ConcatKeepsCase(table: seq<string>, ws: seq<string>)
    requires PlainTable(table)
    ensures SameButForCase(Concat(RestoreWords(table, ws)), Concat(ws))
  {
    if ws != [] {
      RestoreWordKeeps(table, ws[0]);
      ConcatKeepsCase(table, ws[1..]);
      assert RestoreWords(table, ws)[1..] == RestoreWords(table, ws[1..]);
      LowerConcat(RestoreWord(table, ws[0]), Concat(RestoreWords(table, ws[1..])));
      LowerConcat(ws[0], Concat(ws[1..]));
    }
  }

  /** White space aside, the name keeps every character but for its case. */
  lemma RestoredKeepsCharacters(table: seq<string>, s: string)
    requires PlainTable(table)
    ensures SameButForCase(Squeezed(Restored(table, Some(s))), Squeezed(s))
  {
    RestoredWords(table, s);
    SplitKeepsCharacters(s);
    SplitKeepsCharacters(Restored(table, Some(s)));
    ConcatKeepsCase(table, Split(s));
  }

  // ---------------------------------------------------------------- the actual table

  lemma PlainPart(part: seq<string>, a: string)
    requires part in {B_TO_CI, CS_TO_I, K_TO_MP, MR_TO_PA, PB_TO_PP, R_TO_T} && a in part
    ensures Plain(a)
  {
  }

  /** The table the source ships meets what the laws above ask of a table. */
  lemma AcronymsArePlain()
    ensures PlainTable(ACRONYMS)
  {
    forall a | a in ACRONYMS ensures Plain(a) {
      var part :| part in {B_TO_CI, CS_TO_I, K_TO_MP, MR_TO_PA, PB_TO_PP, R_TO_T} && a in part;
      PlainPart(part, a);
    }
  }
}
