/** The string-level codec of HangulUtil: `split_string`, the greedy
    right-to-left `join_string`, and `qwerty_to_hangul`, which feeds keys
    remapped through the two-set layout into `join_string`. */
module HangulJoin {
  import opened PyTypes
  import opened HangulTables
  import opened HangulClassify
  import opened HangulCodec

  // ---------------------------------------------------------------------
  // join_string

  /** The first attempt at a trail: `join_char(l[i-2], l[i-1], l[i])`, where
      the reads of negative positions wrap around and an IndexError or the
      ValueError of `join_char` makes the attempt fail. */
  function Join3(charList: seq<string>, i: nat): Result<string>
    requires i < |charList|
  {
    var cho :- PyIndex(charList, i - 2);
    var jung :- PyIndex(charList, i - 1);
    JoinChar(cho, jung, charList[i])
  }

  /** The two-element attempt: `join_char(l[i-1], l[i])`. */
  function Join2(charList: seq<string>, i: nat): Result<string>
    requires i < |charList|
  {
    var cho :- PyIndex(charList, i - 1);
    JoinChar(cho, charList[i])
  }

  /** One iteration of the loop: the piece put in front of `letters` and by
      how much i goes down. */
  datatype Step = Step(piece: string, width: nat)

  /** An iteration of `join_string` at position i, with each caught
      exception written as the failure of a guarded attempt. */
  function JoinStep(charList: seq<string>, i: nat): (st: Step)
    requires i < |charList|
    ensures 1 <= st.width <= 3
  {
    if IsJong(charList[i]) then
      match Join3(charList, i)
      case Ok(piece) => Step(piece, 3)
      case Err(_) =>
        match Join2(charList, i)
        case Ok(piece) => Step(piece, 2)
        case Err(_) => Step(charList[i], 1)
    else if IsJung(charList[i]) then
      match Join2(charList, i)
      case Ok(piece) => Step(piece, 2)
      case Err(_) => Step(charList[i], 1)
    else Step(charList[i], 1)
  }

  /** What one iteration does: it consumes one, two or three elements; a
      single element is emitted as it is; a group of three ends in a trail
      (or '') and is what `join_char` made of it; a group of two ends in a
      trail or a vowel; and an element that is neither is emitted alone.
      The scan is greedy: the widest join that succeeds is the one taken. */
  lemma {:induction false} JoinStepFacts(charList: seq<string>, i: nat)
    requires i < |charList|
    ensures var st := JoinStep(charList, i);
            (st.width == 1 ==> st.piece == charList[i]) &&
            (st.width == 3 ==> IsJong(charList[i]) && Join3(charList, i) == Ok(st.piece)) &&
            (st.width == 2 ==> (IsJong(charList[i]) || IsJung(charList[i])) &&
                               Join2(charList, i) == Ok(st.piece)) &&
            (!IsJong(charList[i]) && !IsJung(charList[i]) ==> st == Step(charList[i], 1))
    ensures IsJong(charList[i]) && Join3(charList, i).Ok? ==> JoinStep(charList, i).width == 3
    ensures (IsJong(charList[i]) || IsJung(charList[i])) && Join2(charList, i).Ok? ==>
              JoinStep(charList, i).width >= 2
  {
  }

  /** The pieces `join_string` emits for positions 0..i, left to right. */
  function JoinPieces(charList: seq<string>, i: int): seq<string>
    requires i < |charList|
    decreases i + 1
  {
    if i < 0 then []
    else
      var st := JoinStep(charList, i);
      JoinPieces(charList, i - st.width) + [st.piece]
  }

  /** `join_string`.  Over a list of strings every exception inside the loop
      is caught, and `''.join` cannot fail, so the outer `except` returning
      None is unreachable and the result is always a string. */
  method JoinString(charList: seq<string>) returns (word: string)
    ensures word == Concat(JoinPieces(charList, |charList| - 1))
  {
    var letters: seq<string> := [];
    var i := |charList| - 1;
    while i >= 0
      invariant -3 <= i < |charList|
      invariant JoinPieces(charList, |charList| - 1) == JoinPieces(charList, i) + letters
      decreases i + 1
    {
      var st := JoinStep(charList, i);
      JoinPiecesUnfold(charList, i);
      ghost var front := JoinPieces(charList, i - st.width);
      AppendAssoc(front, [st.piece], letters);
      letters := [st.piece] + letters;
      i := i - st.width;
    }
    assert JoinPieces(charList, |charList| - 1) == letters;
    word := Concat(letters);
  }

  lemma {:induction false} JoinPiecesUnfold(charList: seq<string>, i: nat)
    requires i < |charList|
    ensures JoinPieces(charList, i) ==
            JoinPieces(charList, i - JoinStep(charList, i).width) + [JoinStep(charList, i).piece]
  {
  }

  /** Every iteration consumes at least one element, so the join emits at
      most as many pieces as it was given elements. */
  lemma {:induction false} JoinPiecesCount(charList: seq<string>, i: int)
    requires i < |charList|
    ensures |JoinPieces(charList, i)| <= if i < 0 then 0 else i + 1
    decreases i + 1
  {
    if i >= 0 {
      var st := JoinStep(charList, i);
      JoinPiecesCount(charList, i - st.width);
    }
  }

  /** No element up to position i is a trail (or '') or a vowel. */
  predicate PassThrough(charList: seq<string>, i: int)
    requires i < |charList|
  {
    forall k :: 0 <= k <= i ==> !IsJong(charList[k]) && !IsJung(charList[k])
  }

  /** Elements that are neither trails (nor '') nor vowels pass through the
      join unchanged and one by one. */
  lemma {:induction false} JoinPiecesPassThrough(charList: seq<string>, i: int)
    requires -1 <= i < |charList|
    requires PassThrough(charList, i)
    ensures JoinPieces(charList, i) == charList[..i + 1]
    ensures i == |charList| - 1 ==> JoinPieces(charList, i) == charList
    decreases i + 1
  {
    if i == |charList| - 1 {
      assert charList[..i + 1] == charList;
    }
    if i >= 0 {
      JoinPiecesPassThrough(charList, i - 1);
      assert charList[..i + 1] == charList[..i] + [charList[i]];
    }
  }

  /** Negative positions wrap around: ['ㅏ', 'ㄱ'] joins to '각', reading
      the lead ㄱ at position -1 and the vowel ㅏ at position -2 + 2 = 0. */
  lemma {:induction false} WrapAroundExample()
    ensures JoinPieces(["ㅏ", "ㄱ"], 1) == ["각"]
  {
    var cl := ["ㅏ", "ㄱ"];
    JamoClasses("ㄱ");
    JoinCharExample();
    assert PyIndex(cl, -1) == Ok("ㄱ") && PyIndex(cl, 0) == Ok("ㅏ");
    assert Join3(cl, 1) == Ok("각");
    assert JoinStep(cl, 1) == Step("각", 3);
    assert JoinPieces(cl, -2) == [];
  }

  // ---------------------------------------------------------------------
  // split_string

  /** No character of the word, apart from its syllables when
      `syllablesAllowed`, is a trail or a vowel letter: the words on which
      `join_string` groups nothing it was not meant to. */
  predicate NoJamoLetters(word: string, syllablesAllowed: bool)
  {
    forall i :: 0 <= i < |word| && !(syllablesAllowed && IsSyllable(word[i])) ==>
      !IsJong([word[i]]) && !IsJung([word[i]])
  }

  /** What `split_string` appends for one character, with `split_char`
      taken as its docstring describes it and only syllables decomposed:
      lead, vowel and trail (possibly ''), or the character itself. */
  function CharBlock(c: char): (b: seq<string>)
    ensures IsSyllable(c) ==> |b| == 3 && JoinChar(b[0], b[1], b[2]) == Ok([c])
    ensures IsSyllable(c) ==> IsCho(b[0]) && IsJung(b[1]) && IsJong(b[2])
    ensures !IsSyllable(c) ==> b == [[c]]
  {
    if IsSyllable(c) then
      SplitJoinRoundTrip(c);
      SyllableComponents(c);
      OffsetOfDigits(c as int - HangulFirst);
      var (cho, jung, jong) := SplitChar([c]).value;
      [cho, jung, jong]
    else [[c]]
  }

  /** The list `split_string` builds for the first characters of a word. */
  function Decompose(word: string): seq<string>
  {
    if word == [] then []
    else Decompose(word[..|word| - 1]) + CharBlock(word[|word| - 1])
  }

  /** `split_string` with the split of each syllable done as the docstring
      of `split_char` describes (SplitChar), and only syllables decomposed. */
  method SplitString(word: string) returns (li: seq<string>)
    ensures li == Decompose(word)
  {
    li := [];
    for k := 0 to |word|
      invariant li == Decompose(word[..k])
    {
      assert word[..k + 1][..k] == word[..k];
      li := li + CharBlock(word[k]);
    }
    assert word[..|word|] == word;
  }

  /** What the shipped `split_string` does with one character: anything
      `is_full_hangul` accepts (a syllable, ' ', '.' or ',') goes to the
      shipped `split_char`; anything else is appended. */
  function CharBlockAsWritten(c: char): Result<seq<string>>
  {
    if IsFullHangul([c]) then
      var (cho, jung, jong) :- SplitCharAsWritten([c]);
      Ok([cho, jung, jong])
    else Ok([[c]])
  }

  /** The shipped `split_string`: the first exception ends it. */
  function DecomposeAsWritten(word: string): Result<seq<string>>
  {
    if word == [] then Ok([])
    else
      var front :- DecomposeAsWritten(word[..|word| - 1]);
      var block :- CharBlockAsWritten(word[|word| - 1]);
      Ok(front + block)
  }

  /** The shipped `split_string` raises exactly when the word holds a
      syllable, a space, '.' or ','; on any other word it returns the
      characters one by one. */
  lemma {:induction false} SplitStringAsWrittenFails(word: string)
    ensures DecomposeAsWritten(word).Err? <==>
            exists i :: 0 <= i < |word| && (IsSyllable(word[i]) || word[i] in " .,")
    ensures DecomposeAsWritten(word).Ok? ==> DecomposeAsWritten(word).value == Letters(word)
  {
    if word != [] {
      var front := word[..|word| - 1];
      var c := word[|word| - 1];
      SplitStringAsWrittenFails(front);
      SplitCharAsWrittenAlwaysFails([c]);
      assert IsFullHangul([c]) <==> IsSyllable(c) || c in " .,";
      assert forall i :: 0 <= i < |front| ==> front[i] == word[i];
      LettersSnoc(word);
    }
  }

  /** A syllable's block at positions i-2..i is joined back into the
      syllable by one iteration. */
  lemma {:induction false} SyllableBlockStep(cl: seq<string>, i: nat, c: char)
    requires IsSyllable(c)
    requires 2 <= i < |cl|
    requires [cl[i - 2], cl[i - 1], cl[i]] == CharBlock(c)
    ensures JoinStep(cl, i) == Step([c], 3)
  {
    var block := CharBlock(c);
    assert cl[i - 2] == block[0] && cl[i - 1] == block[1] && cl[i] == block[2];
    assert PyIndex(cl, i - 2) == Ok(block[0]) && PyIndex(cl, i - 1) == Ok(block[1]);
    assert Join3(cl, i) == Ok([c]);
  }

  /** Any other character of such a word is passed through alone. */
  lemma {:induction false} LetterBlockStep(cl: seq<string>, i: nat, c: char)
    requires !IsJong([c]) && !IsJung([c])
    requires i < |cl| && cl[i] == [c]
    ensures JoinStep(cl, i) == Step([c], 1)
  {
  }

  /** The block of a character c of such a word, between any front and
      any tail, is turned back into c by one iteration. */
  lemma {:induction false} BlockJoin(d0: seq<string>, c: char, tail: seq<string>)
    requires IsSyllable(c) || (!IsJong([c]) && !IsJung([c]))
    ensures var cl := d0 + (CharBlock(c) + tail);
            JoinPieces(cl, |d0| + |CharBlock(c)| - 1) == JoinPieces(cl, |d0| - 1) + [[c]]
  {
    if IsSyllable(c) {
      SyllableBlockJoin(d0, c, tail);
    } else {
      var cl := d0 + ([[c]] + tail);
      LetterBlockStep(cl, |d0|, c);
      JoinPiecesUnfold(cl, |d0|);
    }
  }

  lemma {:induction false} SyllableBlockJoin(d0: seq<string>, c: char, tail: seq<string>)
    requires IsSyllable(c)
    ensures var cl := d0 + (CharBlock(c) + tail);
            JoinPieces(cl, |d0| + 2) == JoinPieces(cl, |d0| - 1) + [[c]]
  {
    var block := CharBlock(c);
    var cl := d0 + (block + tail);
    var i := |d0| + 2;
    assert [cl[i - 2], cl[i - 1], cl[i]] == block;
    SyllableBlockStep(cl, i, c);
    JoinPiecesUnfold(cl, i);
  }

  /** Joining the split of a word, in front of a tail, ends with one
      iteration that turns the last character's block back into that
      character and leaves the split of the rest in front of it. */
  lemma {:induction false} LastBlockJoin(word: string, tail: seq<string>)
    requires word != []
    requires var c := word[|word| - 1]; IsSyllable(c) || (!IsJong([c]) && !IsJung([c]))
    ensures var front := word[..|word| - 1];
            JoinPieces(Decompose(word) + tail, |Decompose(word)| - 1) ==
            JoinPieces(Decompose(front) + (CharBlock(word[|word| - 1]) + tail), |Decompose(front)| - 1) +
            [[word[|word| - 1]]]
  {
    var front := word[..|word| - 1];
    var c := word[|word| - 1];
    AppendAssoc(Decompose(front), CharBlock(c), tail);
    BlockJoin(Decompose(front), c, tail);
  }

  /** join_string(split_string(w)) == w, for the corrected `split_string`:
      splitting a word and joining the pieces again, in front of any tail,
      gives the word's characters back, provided no character of the word
      other than its syllables is a trail or vowel letter. */
  lemma {:induction false} DecomposeJoinRoundTrip(word: string, tail: seq<string>)
    requires NoJamoLetters(word, true)
    ensures JoinPieces(Decompose(word) + tail, |Decompose(word)| - 1) == Letters(word)
  {
    if word != [] {
      var front := word[..|word| - 1];
      assert NoJamoLetters(front, true) by {
        assert forall i :: 0 <= i < |front| ==> front[i] == word[i];
      }
      DecomposeJoinRoundTrip(front, CharBlock(word[|word| - 1]) + tail);
      LastBlockJoin(word, tail);
      LettersSnoc(word);
    }
  }

  /** Hence `join_string(split_string(word)) == word` for such words. */
  lemma {:induction false} SplitJoinStringRoundTrip(word: string)
    requires NoJamoLetters(word, true)
    ensures Concat(JoinPieces(Decompose(word), |Decompose(word)| - 1)) == word
  {
    DecomposeJoinRoundTrip(word, []);
    assert Decompose(word) + [] == Decompose(word);
    ConcatLetters(word);
  }

  // ---------------------------------------------------------------------
  // qwerty_to_hangul

  /** The characters `qwerty_to_hangul` collects: each key mapped through
      KEY_ENG_TO_HAN, anything else kept. */
  function RemapKeys(word: string): (chars: seq<string>)
    ensures |chars| == |word|
    ensures forall i {:trigger RemapKey(word[i])} :: 0 <= i < |word| ==> chars[i] == RemapKey(word[i])
  {
    if word == [] then []
    else RemapKeys(word[..|word| - 1]) + [RemapKey(word[|word| - 1])]
  }

  /** One character as `qwerty_to_hangul` collects it. */
  function RemapKey(c: char): string
  {
    match KeyToJamo(c)
    case Some(j) => [j]
    case None => [c]
  }

  /** `qwerty_to_hangul`: join the remapped characters, and give back the
      word itself when the join is empty (the falsy case of `if hangul`). */
  method QwertyToHangul(word: string) returns (r: string)
    ensures var hangul := Concat(JoinPieces(RemapKeys(word), |word| - 1));
            r == if hangul != "" then hangul else word
  {
    var chars: seq<string> := [];
    for k := 0 to |word|
      invariant chars == RemapKeys(word[..k])
    {
      assert word[..k + 1][..k] == word[..k];
      var key := KeyToJamo(word[k]);
      if key.Some? {
        chars := chars + [[key.value]];
      } else {
        chars := chars + [[word[k]]];
      }
    }
    assert word[..|word|] == word;
    var hangul := JoinString(chars);
    if hangul != "" {
      r := hangul;
    } else {
      r := word;
    }
  }

  /** Characters that are not keys of the layout are kept as they are. */
  lemma {:induction false} RemapKeysNoKeys(word: string)
    requires forall i :: 0 <= i < |word| ==> word[i] !in KeyEngChars
    ensures forall i :: 0 <= i < |word| ==> RemapKeys(word)[i] == [word[i]]
  {
    forall i | 0 <= i < |word| ensures RemapKeys(word)[i] == [word[i]] {
      KeyToJamoSpec(word[i]);
      assert RemapKey(word[i]) == [word[i]];
    }
  }

  /** `join_string` over the one-letter strings of a word with no trail or
      vowel letter groups nothing: each letter comes out as it went in. */
  lemma {:induction false} JoinLettersPassThrough(word: string, cl: seq<string>)
    requires NoJamoLetters(word, false)
    requires |cl| == |word|
    requires forall k :: 0 <= k < |cl| ==> cl[k] == [word[k]]
    ensures JoinPieces(cl, |cl| - 1) == cl
  {
    assert PassThrough(cl, |cl| - 1);
    JoinPiecesPassThrough(cl, |cl| - 1);
  }

  /** A word with no key of the layout and no trail or vowel letter comes
      back unchanged, the empty word included. */
  lemma {:induction false} QwertyPassThrough(word: string)
    requires forall i :: 0 <= i < |word| ==> word[i] !in KeyEngChars
    requires NoJamoLetters(word, false)
    ensures var hangul := Concat(JoinPieces(RemapKeys(word), |word| - 1));
            (if hangul != "" then hangul else word) == word
  {
    RemapKeysNoKeys(word);
    ConcatOfLetters(word, RemapKeys(word));
    JoinLettersPassThrough(word, RemapKeys(word));
  }

  /** Typing "dkssudgktpdy" on the two-set layout gives "안녕하세요". */
  lemma {:induction false} QwertyExample()
    ensures RemapKeys("dkssudgktpdy") == GreetingLetters
    ensures Concat(JoinPieces(RemapKeys("dkssudgktpdy"), 11)) == "안녕하세요"
  {
    GreetingRemap();
    GreetingJoin();
    GreetingWord();
  }

  lemma GreetingWord()
    ensures Concat(["안", "녕", "하", "세", "요"]) == "안녕하세요"
  {
    var w := "안녕하세요";
    assert w[0] == '안' && w[1] == '녕' && w[2] == '하' && w[3] == '세' && w[4] == '요';
    ConcatOfLetters(w, ["안", "녕", "하", "세", "요"]);
  }

  lemma {:induction false} GreetingRemap()
    ensures RemapKeys("dkssudgktpdy") == GreetingLetters
  {
    var w := "dkssudgktpdy";
    GreetingRemapKeys();
    assert w[0] == 'd' && w[1] == 'k' && w[2] == 's' && w[3] == 's';
    assert w[4] == 'u' && w[5] == 'd' && w[6] == 'g' && w[7] == 'k';
    assert w[8] == 't' && w[9] == 'p' && w[10] == 'd' && w[11] == 'y';
    var r := RemapKeys(w);
    forall i | 0 <= i < 12 ensures r[i] == GreetingLetters[i] {
      assert r[i] == RemapKey(w[i]);
    }
  }

  lemma GreetingRemapKeys()
    ensures RemapKey('d') == "ㅇ" && RemapKey('k') == "ㅏ" && RemapKey('s') == "ㄴ"
    ensures RemapKey('u') == "ㅕ" && RemapKey('g') == "ㅎ" && RemapKey('t') == "ㅅ"
    ensures RemapKey('p') == "ㅔ" && RemapKey('y') == "ㅛ"
  {
    GreetingKeys();
  }

  const GreetingLetters: seq<string> := ["ㅇ", "ㅏ", "ㄴ", "ㄴ", "ㅕ", "ㅇ", "ㅎ", "ㅏ", "ㅅ", "ㅔ", "ㅇ", "ㅛ"]

  /** The letters of "dkssudgktpdy" join from the right: the vowels ㅛ, ㅔ
      and ㅏ each take the letter before them, then the trails ㅇ and ㄴ
      each take the two letters before them. */
  lemma {:induction false} GreetingJoin()
    ensures JoinPieces(GreetingLetters, 11) == ["안", "녕", "하", "세", "요"]
  {
    var cl := GreetingLetters;
    GreetingSteps();
    assert JoinPieces(cl, 2) == ["안"];
    assert JoinPieces(cl, 5) == ["안", "녕"];
    assert JoinPieces(cl, 7) == ["안", "녕", "하"];
    assert JoinPieces(cl, 9) == ["안", "녕", "하", "세"];
  }

  lemma GreetingSteps()
    ensures JoinStep(GreetingLetters, 2) == Step("안", 3)
    ensures JoinStep(GreetingLetters, 5) == Step("녕", 3)
    ensures JoinStep(GreetingLetters, 7) == Step("하", 2)
    ensures JoinStep(GreetingLetters, 9) == Step("세", 2)
    ensures JoinStep(GreetingLetters, 11) == Step("요", 2)
  {
    GreetingSyllables();
    JamoClasses("ㅇ");
    JamoClasses("ㄴ");
    JamoClasses("ㅎ");
    JamoClasses("ㅅ");
  }
}
