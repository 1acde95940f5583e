/** The constant tables of HangulUtil: the three jamo alphabets built by
    `to_sequence`, the consonant alphabet, the code-point ranges and the
    two-set keyboard layout.  All jamo are Hangul Compatibility Jamo letters
    (U+3131..U+3163); syllables are the block U+AC00..U+D7A3 laid out as in
    section 3.12 of the Unicode Standard (SBase U+AC00, LCount 19, VCount 21,
    TCount 28). */
module HangulTables {
  import opened PyTypes

  /** `to_tuple`: an empty string becomes a one-element tuple holding it,
      any other string the tuple of its characters. */
  function ToTuple(s: string): seq<string>
  {
    if |s| == 0 then [s] else Letters(s)
  }

  /** `to_sequence(*sequences)`: the concatenation of the `to_tuple`s. */
  function ToSequence(sequences: seq<string>): seq<string>
  {
    if sequences == [] then [] else ToTuple(sequences[0]) + ToSequence(sequences[1..])
  }

  /** `tuple.index`: the first position holding x, or ValueError. */
  function IndexOf<T(==)>(xs: seq<T>, x: T): (r: Result<nat>)
    ensures r.Ok? ==> r.value < |xs|
    ensures r.Err? ==> r.error == ValueError
  {
    if xs == [] then Err(ValueError)
    else if xs[0] == x then Ok(0)
    else match IndexOf(xs[1..], x)
      case Ok(k) => Ok(k + 1)
      case Err(e) => Err(e)
  }

  ghost predicate Distinct<T>(xs: seq<T>)
  {
    forall i, j :: 0 <= i < j < |xs| ==> xs[i] != xs[j]
  }

  ghost predicate Ascending(s: string)
  {
    forall i :: 0 <= i < |s| - 1 ==> s[i] < s[i + 1]
  }

  /** The code point of lead number k.  The leads are the consonant
      letters without the clusters, in code-point order: five runs of
      consecutive letters (TablesAsWritten spells them out). */
  function LeadCode(k: nat): int
    requires k < 19
  {
    if k < 2 then 0x3131 + k
    else if k < 3 then 0x3132 + k
    else if k < 6 then 0x3134 + k
    else if k < 9 then 0x313B + k
    else 0x313C + k
  }

  /** The code point of trail letter number k: the consonant letters
      without ㄸ, ㅃ and ㅉ, in code-point order, four runs. */
  function TrailCode(k: nat): int
    requires k < 27
  {
    if k < 7 then 0x3131 + k
    else if k < 17 then 0x3132 + k
    else if k < 22 then 0x3133 + k
    else 0x3134 + k
  }

  /** The letters of CHO_LIST, JUNG_LIST, JONG_LIST (after its '') and
      JA_LIST, by code point. */
  const ChoChars: string := LeadLetterString()
  const JungChars: string := RunString(0x314F, 21)
  const JongChars: string := TrailLetterString()
  const JaChars: string := RunString(0x3131, 30)

  function LeadLetterString(): (s: string)
    ensures |s| == 19 && forall k :: 0 <= k < 19 ==> s[k] as int == LeadCode(k)
  {
    seq(19, k requires 0 <= k < 19 => LeadCode(k) as char)
  }

  function TrailLetterString(): (s: string)
    ensures |s| == 27 && forall k :: 0 <= k < 27 ==> s[k] as int == TrailCode(k)
  {
    seq(27, k requires 0 <= k < 27 => TrailCode(k) as char)
  }

  /** The n consecutive letters from code point lo. */
  function RunString(lo: nat, n: nat): (s: string)
    requires lo + n <= 0xD800
    ensures |s| == n && forall k :: 0 <= k < n ==> s[k] as int == lo + k
  {
    seq(n, k requires 0 <= k < n => (lo + k) as char)
  }

  /** CHO_LIST: the 19 leads. */
  const ChoList: seq<string> := Letters(ChoChars)
  /** JUNG_LIST (also MO_LIST): the 21 vowels. */
  const JungList: seq<string> := Letters(JungChars)
  /** JONG_LIST: the 28 trails, the empty string ("no trail") first. */
  const JongList: seq<string> := [""] + Letters(JongChars)
  /** JA_LIST: the 30 consonant letters. */
  const JaList: seq<string> := Letters(JaChars)

  const VowelCount: nat := 21
  const TrailCount: nat := 28
  const LeadCount: nat := 19

  /** HANGUL_RANGE = ord('가') .. ord('힣'). */
  const HangulFirst: int := 0xAC00
  const HangulLast: int := 0xD7A3
  const HangulCount: int := HangulLast - HangulFirst + 1
  /** HANJA_RANGE = ord('一') .. ord('龥'). */
  const HanjaFirst: int := 0x4E00
  const HanjaLast: int := 0x9FA5

  predicate IsSyllable(c: char) { HangulFirst <= c as int <= HangulLast }
  predicate IsHanja(c: char) { HanjaFirst <= c as int <= HanjaLast }
  predicate IsEnglish(c: char) { 'a' <= c <= 'z' || 'A' <= c <= 'Z' }

  /** KEY_ENG_LIST and KEY_HAN_LIST, paired position by position. */
  const KeyEngChars: string := "qwertyuiopasdfghjklzxcvbnm" + "QWERTOP"
  const KeyHanChars: string := "ㅂㅈㄷㄱㅅㅛㅕㅑㅐㅔㅁㄴㅇㄹㅎㅗㅓㅏㅣㅋㅌㅊㅍㅠㅜㅡ" + "ㅃㅉㄸㄲㅆㅒㅖ"

  /** KEY_ENG_TO_HAN = dict(zip(KEY_ENG_LIST, KEY_HAN_LIST)) looked up at c,
      through the first position holding c (KeyToJamoSpec). */
  function KeyToJamo(c: char): Option<char>
  {
    match IndexOf(KeyEngChars, c)
    case Ok(k) => Some(KeyHanChars[k])
    case Err(_) => None
  }

  /** The keys typed in "dkssudgktpdy" and the letters they stand for. */
  lemma {:induction false} GreetingKeys()
    ensures KeyToJamo('d') == Some('ㅇ') && KeyToJamo('k') == Some('ㅏ')
    ensures KeyToJamo('s') == Some('ㄴ') && KeyToJamo('u') == Some('ㅕ')
    ensures KeyToJamo('g') == Some('ㅎ') && KeyToJamo('t') == Some('ㅅ')
    ensures KeyToJamo('p') == Some('ㅔ') && KeyToJamo('y') == Some('ㅛ')
  {
    GreetingKeyPositions();
    KeyToJamoSpec('d');
    KeyToJamoSpec('k');
    KeyToJamoSpec('s');
    KeyToJamoSpec('u');
    KeyToJamoSpec('g');
    KeyToJamoSpec('t');
    KeyToJamoSpec('p');
    KeyToJamoSpec('y');
  }

  lemma GreetingKeyPositions()
    ensures KeyEngChars[12] == 'd' && KeyHanChars[12] == 'ㅇ'
    ensures KeyEngChars[17] == 'k' && KeyHanChars[17] == 'ㅏ'
    ensures KeyEngChars[11] == 's' && KeyHanChars[11] == 'ㄴ'
    ensures KeyEngChars[6] == 'u' && KeyHanChars[6] == 'ㅕ'
    ensures KeyEngChars[14] == 'g' && KeyHanChars[14] == 'ㅎ'
    ensures KeyEngChars[4] == 't' && KeyHanChars[4] == 'ㅅ'
    ensures KeyEngChars[9] == 'p' && KeyHanChars[9] == 'ㅔ'
    ensures KeyEngChars[5] == 'y' && KeyHanChars[5] == 'ㅛ'
  {
  }

  /** The lookup finds a jamo exactly for the keys of the layout, and the
      keys are distinct (KeyTableIsADict), so it is the jamo paired with c
      wherever c stands: the lookup agrees with the dictionary. */
  lemma {:induction false} KeyToJamoSpec(c: char)
    ensures KeyToJamo(c).Some? <==> c in KeyEngChars
    ensures forall i :: 0 <= i < |KeyEngChars| && KeyEngChars[i] == c ==>
              KeyToJamo(c) == Some(KeyHanChars[i])
  {
    KeyTableIsADict();
    IndexOfSpec(KeyEngChars, c);
  }

  lemma {:induction false} AscendingAt(s: string, i: int, j: int)
    requires Ascending(s)
    requires 0 <= i < j < |s|
    ensures s[i] < s[j]
    decreases j - i
  {
    if j > i + 1 {
      AscendingAt(s, i, j - 1);
    }
  }

  lemma {:induction false} AscendingLettersDistinct(s: string)
    requires Ascending(s)
    ensures Distinct(Letters(s))
  {
    forall i, j | 0 <= i < j < |s|
      ensures Letters(s)[i] != Letters(s)[j]
    {
      AscendingAt(s, i, j);
    }
  }

  /** `tuple.index` succeeds exactly when x occurs, and then finds its
      first occurrence. */
  lemma {:induction false} IndexOfSpec<T>(xs: seq<T>, x: T)
    ensures IndexOf(xs, x).Ok? <==> x in xs
    ensures IndexOf(xs, x).Ok? ==> xs[IndexOf(xs, x).value] == x
    ensures IndexOf(xs, x).Ok? ==> forall j :: 0 <= j < IndexOf(xs, x).value ==> xs[j] != x
  {
    if xs != [] && xs[0] != x {
      IndexOfSpec(xs[1..], x);
      assert x in xs <==> x in xs[1..];
      if IndexOf(xs, x).Ok? {
        forall j | 0 <= j < IndexOf(xs, x).value ensures xs[j] != x {
          if j > 0 { assert xs[j] == xs[1..][j - 1]; }
        }
      }
    }
  }

  /** A position in a duplicate-free sequence is what `tuple.index` finds. */
  lemma {:induction false} IndexOfDistinct<T>(xs: seq<T>, i: nat)
    requires Distinct(xs)
    requires i < |xs|
    ensures IndexOf(xs, xs[i]) == Ok(i)
  {
    IndexOfSpec(xs, xs[i]);
  }

  /** The alphabets, as `to_sequence` builds them, have 19, 21, 28 and 30
      entries; `''` stands first in JONG_LIST; every other entry is one
      letter; and 19 * 21 * 28 syllables fill the range 가..힣 exactly. */
  lemma {:induction false} TableShapes()
    ensures ToSequence([ChoChars]) == ChoList
    ensures ToSequence([JungChars]) == JungList
    ensures ToSequence(["", JongChars]) == JongList
    ensures ToSequence([JaChars]) == JaList
    ensures |ChoList| == LeadCount == 19
    ensures |JungList| == VowelCount == 21
    ensures |JongList| == TrailCount == 28 && JongList[0] == ""
    ensures |JaList| == 30
    ensures LeadCount * VowelCount * TrailCount == HangulCount == 11172
  {
    assert ToSequence(["", JongChars]) == ToTuple("") + ToSequence([JongChars]);
  }

  /** `to_sequence` turns each empty argument into one `''` entry and every
      other argument into its letters, and concatenates in argument order. */
  lemma {:induction false} ToSequenceLaw(a: seq<string>, b: seq<string>)
    ensures ToSequence(a + b) == ToSequence(a) + ToSequence(b)
    ensures ToSequence([""]) == [""]
    ensures forall s :: s != "" ==> ToSequence([s]) == Letters(s)
  {
    if a == [] {
      assert a + b == b;
    } else {
      assert (a + b)[1..] == a[1..] + b;
      ToSequenceLaw(a[1..], b);
    }
  }

  /** No alphabet holds an entry twice, so `tuple.index` on them is the
      inverse of indexing. */
  lemma {:induction false} TablesDistinct()
    ensures Distinct(ChoList) && Distinct(JungList) && Distinct(JongList) && Distinct(JaList)
  {
    assert Ascending(ChoChars) && Ascending(JungChars) && Ascending(JongChars) && Ascending(JaChars);
    AscendingLettersDistinct(ChoChars);
    AscendingLettersDistinct(JungChars);
    AscendingLettersDistinct(JongChars);
    AscendingLettersDistinct(JaChars);
  }

  /** The entries the worked examples use, by position in each alphabet. */
  lemma {:induction false} NamedEntries()
    ensures ChoList[0] == "ㄱ" && ChoList[2] == "ㄴ" && ChoList[5] == "ㄹ"
    ensures ChoList[9] == "ㅅ" && ChoList[11] == "ㅇ" && ChoList[18] == "ㅎ"
    ensures JungList[0] == "ㅏ" && JungList[3] == "ㅒ" && JungList[5] == "ㅔ"
    ensures JungList[6] == "ㅕ" && JungList[12] == "ㅛ" && JungList[20] == "ㅣ"
    ensures JongList[1] == "ㄱ" && JongList[4] == "ㄴ" && JongList[21] == "ㅇ"
    ensures JongList[27] == "ㅎ"
  {
  }

  /** Only the first trail is empty; every lead and vowel is non-empty. */
  lemma {:induction false} EmptyEntries(ci: nat, vi: nat, ti: nat)
    requires ci < |ChoList| && vi < |JungList| && ti < |JongList|
    ensures ChoList[ci] != "" && JungList[vi] != ""
    ensures JongList[ti] == "" <==> ti == 0
  {
    if ti > 0 {
      assert JongList[ti] == Letters(JongChars)[ti - 1];
    }
  }

  /** Table entries and their positions correspond one to one. */
  lemma {:induction false} TableIndex()
    ensures forall i :: 0 <= i < |ChoList| ==> IndexOf(ChoList, ChoList[i]) == Ok(i)
    ensures forall i :: 0 <= i < |JungList| ==> IndexOf(JungList, JungList[i]) == Ok(i)
    ensures forall i :: 0 <= i < |JongList| ==> IndexOf(JongList, JongList[i]) == Ok(i)
  {
    TablesDistinct();
    forall i | 0 <= i < |ChoList| ensures IndexOf(ChoList, ChoList[i]) == Ok(i) {
      IndexOfDistinct(ChoList, i);
    }
    forall i | 0 <= i < |JungList| ensures IndexOf(JungList, JungList[i]) == Ok(i) {
      IndexOfDistinct(JungList, i);
    }
    forall i | 0 <= i < |JongList| ensures IndexOf(JongList, JongList[i]) == Ok(i) {
      IndexOfDistinct(JongList, i);
    }
  }

  /** The keyboard table pairs 33 distinct keys with 33 jamo, so the `zip`
      loses nothing and the dictionary has one entry per key. */
  lemma {:induction false} KeyTableIsADict()
    ensures |KeyEngChars| == |KeyHanChars| == 33
    ensures forall i, j :: 0 <= i < j < |KeyEngChars| ==> KeyEngChars[i] != KeyEngChars[j]
  {
    var lower := "qwertyuiopasdfghjklzxcvbnm";
    var upper := "QWERTOP";
    assert KeyEngChars == lower + upper;
    forall i, j | 0 <= i < j < |KeyEngChars| ensures KeyEngChars[i] != KeyEngChars[j] {
      if j < |lower| {
        assert forall k, l :: 0 <= k < l < |lower| ==> lower[k] != lower[l];
      } else if i >= |lower| {
        assert forall k, l :: 0 <= k < l < |upper| ==> upper[k] != upper[l];
      } else {
        assert 'a' <= KeyEngChars[i] <= 'z';
        assert 'A' <= KeyEngChars[j] <= 'Z';
      }
    }
  }

  /** The consonant letters ㄱ..ㅎ, U+3131..U+314E. */
  predicate IsConsonantLetter(c: char) { 'ㄱ' <= c <= 'ㅎ' }

  /** The vowel letters ㅏ..ㅣ, U+314F..U+3163, right after the consonants. */
  predicate IsVowelLetter(c: char) { 'ㅏ' <= c <= 'ㅣ' }

  /** The consonants that can lead a syllable: the simple and the doubled
      ones, none of the clusters ㄳ, ㄵ, ㄶ, ㄺ..ㅀ, ㅄ. */
  predicate IsLeadLetter(c: char)
  {
    'ㄱ' <= c <= 'ㄲ' || c == 'ㄴ' || 'ㄷ' <= c <= 'ㄹ' || 'ㅁ' <= c <= 'ㅃ' || 'ㅅ' <= c <= 'ㅎ'
  }

  /** The consonants that can end a syllable: all but ㄸ, ㅃ and ㅉ. */
  predicate IsTrailLetter(c: char)
  {
    'ㄱ' <= c <= 'ㄷ' || 'ㄹ' <= c <= 'ㅂ' || 'ㅄ' <= c <= 'ㅈ' || 'ㅊ' <= c <= 'ㅎ'
  }

  /** The letter strings hold exactly the letters the range predicates
      describe. */
  lemma {:induction false} LeadLetters()
    ensures forall c :: c in ChoChars <==> IsLeadLetter(c)
  {
    forall c | IsLeadLetter(c)
      ensures c in ChoChars
    {
      var k := if c <= 'ㄲ' then c as int - 0x3131
               else if c == 'ㄴ' then 2
               else if c <= 'ㄹ' then c as int - 0x3134
               else if c <= 'ㅃ' then c as int - 0x313B
               else c as int - 0x313C;
      assert ChoChars[k] == c;
    }
  }

  lemma {:induction false} TrailLetters()
    ensures forall c :: c in JongChars <==> IsTrailLetter(c)
  {
    forall c | IsTrailLetter(c)
      ensures c in JongChars
    {
      var k := if c <= 'ㄷ' then c as int - 0x3131
               else if c <= 'ㅂ' then c as int - 0x3132
               else if c <= 'ㅈ' then c as int - 0x3133
               else c as int - 0x3134;
      assert JongChars[k] == c;
    }
  }

  lemma {:induction false} VowelAndConsonantLetters()
    ensures forall c :: c in JungChars <==> IsVowelLetter(c)
    ensures forall c :: c in JaChars <==> IsConsonantLetter(c)
  {
    forall c | IsVowelLetter(c)
      ensures c in JungChars
    {
      assert JungChars[c as int - 0x314F] == c;
    }
    forall c | IsConsonantLetter(c)
      ensures c in JaChars
    {
      assert JaChars[c as int - 0x3131] == c;
    }
  }

  lemma {:induction false} LetterTables()
    ensures forall c :: c in ChoChars <==> IsLeadLetter(c)
    ensures forall c :: c in JungChars <==> IsVowelLetter(c)
    ensures forall c :: c in JongChars <==> IsTrailLetter(c)
    ensures forall c :: c in JaChars <==> IsConsonantLetter(c)
  {
    LeadLetters();
    TrailLetters();
    VowelAndConsonantLetters();
  }

  /** The letter strings are the ones HangulUtil spells out. */
  lemma {:induction false} TablesAsWritten()
    ensures ChoChars == "ㄱㄲㄴㄷㄸㄹㅁㅂㅃㅅㅆㅇㅈㅉㅊㅋㅌㅍㅎ"
    ensures JungChars == "ㅏㅐㅑㅒㅓㅔㅕㅖㅗㅘㅙㅚㅛㅜㅝㅞㅟㅠㅡㅢㅣ"
    ensures JongChars == "ㄱㄲㄳㄴㄵㄶㄷㄹㄺㄻㄼㄽㄾㄿㅀㅁㅂㅄㅅㅆㅇㅈㅊㅋㅌㅍㅎ"
    ensures JaChars == "ㄱㄲㄳㄴㄵㄶㄷㄸㄹㄺㄻㄼㄽㄾㄿㅀㅁㅂㅃㅄㅅㅆㅇㅈㅉㅊㅋㅌㅍㅎ"
  {
    LeadsAsWritten();
    TrailsAsWritten();
    VowelsAndConsonantsAsWritten();
  }

  lemma {:induction false} LeadsAsWritten()
    ensures ChoChars == "ㄱㄲㄴㄷㄸㄹㅁㅂㅃㅅㅆㅇㅈㅉㅊㅋㅌㅍㅎ"
  {
  }

  lemma {:induction false} TrailsAsWritten()
    ensures JongChars == "ㄱㄲㄳㄴㄵㄶㄷㄹㄺㄻㄼㄽㄾㄿㅀㅁㅂㅄㅅㅆㅇㅈㅊㅋㅌㅍㅎ"
  {
  }

  lemma {:induction false} VowelsAndConsonantsAsWritten()
    ensures JungChars == "ㅏㅐㅑㅒㅓㅔㅕㅖㅗㅘㅙㅚㅛㅜㅝㅞㅟㅠㅡㅢㅣ"
    ensures JaChars == "ㄱㄲㄳㄴㄵㄶㄷㄸㄹㄺㄻㄼㄽㄾㄿㅀㅁㅂㅃㅄㅅㅆㅇㅈㅉㅊㅋㅌㅍㅎ"
  {
  }

  /** A string is an entry of an alphabet built by Letters exactly when it
      is one of the alphabet's letters. */
  lemma {:induction false} InLetters(s: string, chars: string)
    ensures s in Letters(chars) <==> |s| == 1 && s[0] in chars
  {
    if |s| == 1 && s[0] in chars {
      var k :| 0 <= k < |chars| && chars[k] == s[0];
      assert Letters(chars)[k] == s;
    }
  }
}
