/** The character and string classifiers of HangulUtil.  Each string
    predicate is the source's early-return loop read as a quantifier over
    the characters; each `is_*_char` takes a Python string and answers None
    where the source's bare `except` swallows the TypeError of `ord` on a
    string longer than one character. */
module HangulClassify {
  import opened PyTypes
  import opened HangulTables

  /** `has_hangul`: some character is a syllable of 가..힣. */
  predicate HasHangul(word: string)
  {
    exists i :: 0 <= i < |word| && IsSyllable(word[i])
  }

  /** `has_english`: some character is an ASCII letter. */
  predicate HasEnglish(word: string)
  {
    exists i :: 0 <= i < |word| && IsEnglish(word[i])
  }

  /** `has_hanja`: some character lies in 一..龥. */
  predicate HasHanja(word: string)
  {
    exists i :: 0 <= i < |word| && IsHanja(word[i])
  }

  /** `is_full_hangul(word, exclude_chars='.,')`: every character is a space,
      one of the excluded characters, or a syllable. */
  predicate IsFullHangul(word: string, excludeChars: string := ".,")
  {
    forall i :: 0 <= i < |word| ==>
      word[i] == ' ' || word[i] in excludeChars || IsSyllable(word[i])
  }

  /** `is_full_hangul_or_english(word, exclude_chars='')`: as IsFullHangul,
      but ASCII letters are accepted too. */
  predicate IsFullHangulOrEnglish(word: string, excludeChars: string := "")
  {
    forall i :: 0 <= i < |word| ==>
      word[i] == ' ' || word[i] in excludeChars || IsSyllable(word[i]) || IsEnglish(word[i])
  }

  /** `is_hangul_char`: False on '', the range test on one character, and
      None once `ord` fails on a longer string. */
  function IsHangulChar(s: string): (r: Option<bool>)
    ensures r.None? <==> |s| > 1
    ensures r.Some? ==> (r.value <==> HasHangul(s))
  {
    if |s| == 0 then Some(false)
    else if |s| > 1 then None
    else Some(IsSyllable(s[0]))
  }

  /** `is_english_char`. */
  function IsEnglishChar(s: string): (r: Option<bool>)
    ensures r.None? <==> |s| > 1
    ensures r.Some? ==> (r.value <==> HasEnglish(s))
  {
    if |s| == 0 then Some(false)
    else if |s| > 1 then None
    else Some(IsEnglish(s[0]))
  }

  /** `is_hanja_char`. */
  function IsHanjaChar(s: string): (r: Option<bool>)
    ensures r.None? <==> |s| > 1
    ensures r.Some? ==> (r.value <==> HasHanja(s))
  {
    if |s| == 0 then Some(false)
    else if |s| > 1 then None
    else Some(IsHanja(s[0]))
  }

  /** `is_moum`: membership in MO_LIST, that is, one vowel letter
      (MembershipTests). */
  predicate IsMoum(s: string) { |s| == 1 && IsVowelLetter(s[0]) }
  /** `is_jaum`: membership in JA_LIST, one consonant letter. */
  predicate IsJaum(s: string) { |s| == 1 && IsConsonantLetter(s[0]) }
  /** `is_cho`: membership in CHO_LIST, one lead letter. */
  predicate IsCho(s: string) { |s| == 1 && IsLeadLetter(s[0]) }
  /** `is_jung`: delegates to `is_moum`. */
  predicate IsJung(s: string) { IsMoum(s) }
  /** `is_jong`: membership in JONG_LIST, which holds '' besides the trail
      letters. */
  predicate IsJong(s: string) { s == "" || (|s| == 1 && IsTrailLetter(s[0])) }

  /** The membership tests are the source's `in` on the tuples. */
  lemma {:induction false} MembershipTests(s: string)
    ensures IsCho(s) <==> s in ChoList
    ensures IsJung(s) <==> s in JungList
    ensures IsMoum(s) <==> s in JungList
    ensures IsJaum(s) <==> s in JaList
    ensures IsJong(s) <==> s in JongList
  {
    LetterTables();
    InLetters(s, ChoChars);
    InLetters(s, JungChars);
    InLetters(s, JaChars);
    InLetters(s, JongChars);
    assert s in JongList <==> s == "" || s in Letters(JongChars);
  }

  /** Each table entry passes its own test. */
  lemma {:induction false} EntryClasses(ci: nat, vi: nat, ti: nat)
    requires ci < |ChoList| && vi < |JungList| && ti < |JongList|
    ensures IsCho(ChoList[ci]) && IsJung(JungList[vi]) && IsJong(JongList[ti])
  {
    MembershipTests(ChoList[ci]);
    MembershipTests(JungList[vi]);
    MembershipTests(JongList[ti]);
  }

  /** How the classes relate: every lead and every real trail is a
      consonant, no vowel is a consonant, a lead or a trail, '' is only a
      trail, and no syllable is a jamo. */
  lemma {:induction false} JamoClasses(s: string)
    ensures IsJong("") && !IsCho("") && !IsJung("") && !IsJaum("")
    ensures IsCho(s) ==> IsJaum(s)
    ensures IsJong(s) && s != "" ==> IsJaum(s)
    ensures IsJung(s) ==> !IsJaum(s) && !IsCho(s) && !IsJong(s)
    ensures |s| == 1 && IsSyllable(s[0]) ==> !IsCho(s) && !IsJung(s) && !IsJong(s)
  {
  }

  /** The per-character classes are disjoint: no single character is at
      once a syllable, an ASCII letter and a Hanja, so at most one of the
      three classifiers answers True. */
  lemma {:induction false} CharClassifiers(s: string)
    ensures IsHangulChar(s) == Some(true) ==> IsEnglishChar(s) == Some(false) && IsHanjaChar(s) == Some(false)
    ensures IsEnglishChar(s) == Some(true) ==> IsHangulChar(s) == Some(false) && IsHanjaChar(s) == Some(false)
    ensures IsHanjaChar(s) == Some(true) ==> IsHangulChar(s) == Some(false) && IsEnglishChar(s) == Some(false)
  {
  }

  /** The string predicates split over concatenation: `has_*` as a
      disjunction, `is_full_*` as a conjunction.  With the empty string this
      pins each of them down by its one-character cases. */
  lemma {:induction false} PredicatesOverConcat(a: string, b: string, ex: string)
    ensures HasHangul(a + b) <==> HasHangul(a) || HasHangul(b)
    ensures HasEnglish(a + b) <==> HasEnglish(a) || HasEnglish(b)
    ensures HasHanja(a + b) <==> HasHanja(a) || HasHanja(b)
    ensures IsFullHangul(a + b, ex) <==> IsFullHangul(a, ex) && IsFullHangul(b, ex)
    ensures IsFullHangulOrEnglish(a + b, ex) <==> IsFullHangulOrEnglish(a, ex) && IsFullHangulOrEnglish(b, ex)
  {
    var ab := a + b;
    assert forall i :: 0 <= i < |a| ==> ab[i] == a[i];
    assert forall i :: 0 <= i < |b| ==> ab[|a| + i] == b[i];
    if HasHangul(ab) {
      var i :| 0 <= i < |ab| && IsSyllable(ab[i]);
      if i >= |a| { assert b[i - |a|] == ab[i]; }
    }
    if HasEnglish(ab) {
      var i :| 0 <= i < |ab| && IsEnglish(ab[i]);
      if i >= |a| { assert b[i - |a|] == ab[i]; }
    }
    if HasHanja(ab) {
      var i :| 0 <= i < |ab| && IsHanja(ab[i]);
      if i >= |a| { assert b[i - |a|] == ab[i]; }
    }
    if IsFullHangul(a, ex) && IsFullHangul(b, ex) {
      forall i | 0 <= i < |ab|
        ensures ab[i] == ' ' || ab[i] in ex || IsSyllable(ab[i])
      {
        if i >= |a| { assert ab[i] == b[i - |a|]; }
      }
    }
    if IsFullHangulOrEnglish(a, ex) && IsFullHangulOrEnglish(b, ex) {
      forall i | 0 <= i < |ab|
        ensures ab[i] == ' ' || ab[i] in ex || IsSyllable(ab[i]) || IsEnglish(ab[i])
      {
        if i >= |a| { assert ab[i] == b[i - |a|]; }
      }
    }
  }

  /** How the predicates relate: a fully Hangul string is fully
      Hangul-or-English; on a string with no spaces and no excluded
      characters, "fully Hangul" means that every character is a syllable,
      so a non-empty one has Hangul; and a string with an English letter
      that is not excluded is not fully Hangul. */
  lemma {:induction false} PredicateRelations(word: string, ex: string)
    ensures IsFullHangul(word, ex) ==> IsFullHangulOrEnglish(word, ex)
    ensures (IsFullHangul(word, ex) && word != [] && ' ' !in word &&
             forall c :: c in ex ==> c !in word) ==> HasHangul(word)
    ensures (exists i :: 0 <= i < |word| && IsEnglish(word[i]) && word[i] !in ex)
            ==> !IsFullHangul(word, ex)
  {
    if IsFullHangul(word, ex) && word != [] && ' ' !in word && (forall c :: c in ex ==> c !in word) {
      assert word[0] in word;
      assert IsSyllable(word[0]);
    }
  }

  /** Worked examples: "가나다" is fully Hangul and "raw" is not;
      "Hello세상" is fully Hangul-or-English, "Hello, 세상!" is not (the comma
      and the exclamation mark are not excluded; the space always is); the
      empty string is fully Hangul and has no Hangul. */
  lemma {:induction false} ClassifierExamples()
    ensures IsFullHangul("가나다")
    ensures !IsFullHangul("raw")
    ensures IsFullHangulOrEnglish("Hello세상", "")
    ensures !IsFullHangulOrEnglish("Hello, 세상!", "")
    ensures IsFullHangul("") && !HasHangul("")
    ensures IsFullHangul("하 바") && IsFullHangul("합병한다.") && !IsFullHangul("차세대-폐렴구균백신")
  {
    assert !IsSyllable("raw"[0]);
    assert "Hello, 세상!"[5] == ',';
    assert "차세대-폐렴구균백신"[3] == '-';
  }
}
