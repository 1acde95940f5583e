/** The character-level codec of HangulUtil: the offset of a character in
    the syllable block, the component getters with their bare-jamo
    pass-through, the `has_*` tests, `join_char`, and `split_char` /
    `join_suffix` both as shipped and as their docstrings describe them. */
module HangulCodec {
  import opened PyTypes
  import opened HangulTables
  import opened HangulClassify

  /** IS_NOT_HANGUL. */
  const IsNotHangul: int := -1

  /** `__char_offset` on a string: the distance from 가, or -1 for a string
      that is not one character or is not accepted by `is_full_hangul` with
      its default exclusions.  ' ', '.' and ',' are accepted there, so they
      receive large negative offsets. */
  function CharOffset(s: string): (o: int)
    ensures |s| == 1 && (IsSyllable(s[0]) || s[0] in " .,") ==> o == s[0] as int - HangulFirst
    ensures !(|s| == 1 && (IsSyllable(s[0]) || s[0] in " .,")) ==> o == IsNotHangul
  {
    if |s| != 1 then IsNotHangul
    else if !IsFullHangul(s) then IsNotHangul
    else
      var offset := s[0] as int - HangulFirst;
      if offset >= HangulCount then IsNotHangul else offset
  }

  /** `__char_offset` on an int: the int itself unless it is past the block. */
  function IntOffset(n: int): (o: int)
    ensures o < HangulCount
    ensures o == n || o == IsNotHangul
    ensures n < HangulCount ==> o == n
  {
    if n >= HangulCount then IsNotHangul else n
  }

  /** The final line of `get_cho`: CHO_LIST[int(offset / (21 * 28))], a
      lead whenever the index lands in the list. */
  function ChoAt(offset: int): (r: Result<string>)
    ensures r.Ok? ==> r.value in ChoList && r.value != ""
    ensures r.Err? ==> r.error == IndexError
    ensures -1 <= offset < HangulCount ==> r.Ok?
  {
    var k := TruncDiv(offset, VowelCount * TrailCount);
    if -|ChoList| <= k < |ChoList| then
      EmptyEntries(if k >= 0 then k else |ChoList| + k, 0, 0);
      PyIndex(ChoList, k)
    else PyIndex(ChoList, k)
  }

  /** The final line of `get_jung`: MO_LIST[int(offset / 28 % 21)].  The
      float division runs first, then the float `%`, then `int`; for an
      integer offset this is the floored quotient taken modulo 21, always an
      index of MO_LIST, so this never raises. */
  function JungAt(offset: int): (r: Result<string>)
    ensures r.Ok? && r.value in JungList && r.value != ""
  {
    var k := (offset / TrailCount) % VowelCount;
    EmptyEntries(0, k, 0);
    PyIndex(JungList, k)
  }

  /** The final line of `get_jong`: JONG_LIST[offset % 28], never raising,
      and the empty trail exactly for multiples of 28. */
  function JongAt(offset: int): (r: Result<string>)
    ensures r.Ok? && r.value in JongList
    ensures r.value == "" <==> offset % TrailCount == 0
  {
    EmptyEntries(0, 0, offset % TrailCount);
    PyIndex(JongList, offset % TrailCount)
  }

  /** `get_cho` on a string: a lead or ''; it raises exactly on ' ', '.'
      and ',', whose offsets are far below the block. */
  function GetCho(s: string): (r: Result<string>)
    ensures r.Ok? ==> r.value == "" || r.value in ChoList
    ensures r.Err? <==> |s| == 1 && s[0] in " .,"
    ensures r.Err? ==> r.error == IndexError
  {
    if IsCho(s) then MembershipTests(s); Ok(s)
    else if IsJung(s) || IsJong(s) then Ok("")
    else
      assert |s| == 1 && s[0] in " .," ==> TruncDiv(CharOffset(s), VowelCount * TrailCount) <= -74;
      ChoAt(CharOffset(s))
  }

  /** `get_jung` on a string: a vowel or '', and never an exception. */
  function GetJung(s: string): (r: Result<string>)
    ensures r.Ok? && (r.value == "" || r.value in JungList)
  {
    if IsJung(s) then MembershipTests(s); Ok(s)
    else if IsCho(s) || IsJong(s) then Ok("")
    else JungAt(CharOffset(s))
  }

  /** `char[-1]` when the argument is longer than one character. */
  function LastChar(s: string): string
  {
    if |s| > 1 then [s[|s| - 1]] else s
  }

  /** `has_cho`: `get_cho` of the last character is non-empty.  It is false
      on a bare vowel or trail (and on ''), raises on a last character ' ',
      '.' or ',', and is true otherwise. */
  function HasCho(s: string): (r: Result<bool>)
    ensures r.Err? <==> |s| >= 1 && s[|s| - 1] in " .,"
    ensures r.Ok? ==> (r.value <==> IsCho(LastChar(s)) || (!IsJung(LastChar(s)) && !IsJong(LastChar(s))))
  {
    var g :- GetCho(LastChar(s));
    Ok(|g| > 0)
  }

  /** `has_jung`: never raises, and is false exactly on a bare lead or
      trail (and on ''). */
  function HasJung(s: string): (r: Result<bool>)
    ensures r == Ok((!IsCho(LastChar(s)) && !IsJong(LastChar(s))) || IsJung(LastChar(s)))
  {
    Ok(|GetJung(LastChar(s)).value| > 0)
  }

  /** `get_jong` on a string: a trail or '', never an exception; a lead or
      a vowel gives ''.  `has_jung` is evaluated first. */
  function GetJong(s: string): (r: Result<string>)
    ensures r.Ok? && r.value in JongList
    ensures IsCho(s) || IsJung(s) ==> r == Ok("")
  {
    var hasJung := HasJung(s).value;
    if hasJung && IsJong(s) then MembershipTests(s); Ok(s)
    else if IsCho(s) || IsJung(s) then TableShapes(); Ok("")
    else JongAt(CharOffset(s))
  }

  /** `has_jong`: never raises; false on a bare lead or vowel, and on a
      syllable true exactly when its offset is not a multiple of 28. */
  function HasJong(s: string): (r: Result<bool>)
    ensures r.Ok?
    ensures IsCho(LastChar(s)) || IsJung(LastChar(s)) ==> r == Ok(false)
    ensures |s| >= 1 && IsSyllable(s[|s| - 1]) ==>
              r == Ok((s[|s| - 1] as int - HangulFirst) % TrailCount != 0)
  {
    Ok(|GetJong(LastChar(s)).value| > 0)
  }

  /** `join_char(cho, jung, jong='')`.  With an empty lead or vowel it hands
      back `cho or jung`; otherwise each component is looked up with
      `tuple.index` (ValueError when absent) and the syllable at
      (lead * 21 + vowel) * 28 + trail past 가 is returned. */
  function JoinChar(cho: string, jung: string, jong: string := ""): (r: Result<string>)
    ensures cho == "" || jung == "" ==> r == Ok(if cho != "" then cho else jung)
    ensures cho != "" && jung != "" ==>
              (r.Ok? <==> IsCho(cho) && IsJung(jung) && IsJong(jong))
    ensures r.Err? ==> r.error == ValueError
    ensures cho != "" && jung != "" && r.Ok? ==> |r.value| == 1 && IsSyllable(r.value[0])
  {
    if cho == "" || jung == "" then Ok(if cho != "" then cho else jung)
    else
      MembershipTests(cho);
      MembershipTests(jung);
      MembershipTests(jong);
      IndexOfSpec(ChoList, cho);
      IndexOfSpec(JungList, jung);
      IndexOfSpec(JongList, jong);
      var ci :- IndexOf(ChoList, cho);
      var vi :- IndexOf(JungList, jung);
      var ti :- IndexOf(JongList, jong);
      OffsetBounds(ci, vi, ti);
      Ok([(HangulFirst + (ci * VowelCount + vi) * TrailCount + ti) as char])
  }

  /** `split_char` as its docstring describes it: the triple of getters
      applied to the character. */
  function SplitChar(s: string): (r: Result<(string, string, string)>)
    ensures r.Err? <==> |s| == 1 && s[0] in " .,"
    ensures r.Err? ==> r.error == IndexError
    ensures r.Ok? ==> (r.value.0 == "" || r.value.0 in ChoList) &&
                      (r.value.1 == "" || r.value.1 in JungList) && r.value.2 in JongList
  {
    var cho :- GetCho(s);
    Ok((cho, GetJung(s).value, GetJong(s).value))
  }

  /** `join_suffix` built on SplitChar: a syllable without a trail takes the
      suffix as its trail, anything else is followed by the suffix. */
  function JoinSuffix(s: string, jongSuffix: string): (r: Result<string>)
    ensures |s| == 1 && s[0] in " .," ==> r == Err(IndexError)
    ensures r.Err? ==> r.error == IndexError || r.error == ValueError
    ensures r.Ok? ==> r.value == s + jongSuffix || (|r.value| == 1 && IsSyllable(r.value[0]))
  {
    var (cho, jung, jong) :- SplitChar(s);
    if cho != "" && jung != "" && jong == "" then JoinChar(cho, jung, jongSuffix)
    else Ok(s + jongSuffix)
  }

  /** `get_cho` applied to the int offset that `split_char` passes: an int is
      in none of the alphabets, so only the final line runs. */
  function GetChoOfInt(n: int): Result<string>
  {
    ChoAt(IntOffset(n))
  }

  /** `get_jung` applied to an int offset. */
  function GetJungOfInt(n: int): Result<string>
  {
    JungAt(IntOffset(n))
  }

  /** `get_jong` applied to an int offset: its first step, `has_jung`, calls
      `len` on the int, which raises TypeError whatever the int is. */
  function GetJongOfInt(n: int): Result<string>
  {
    Err(TypeError)
  }

  /** `split_char` as shipped: the offset is computed first and the three
      getters are then called on the int. */
  function SplitCharAsWritten(s: string): Result<(string, string, string)>
  {
    var offset := CharOffset(s);
    var cho :- GetChoOfInt(offset);
    var jung :- GetJungOfInt(offset);
    match GetJongOfInt(offset)
    case Err(e) => Err(e)
    case Ok(jong) => Ok((cho, jung, jong))
  }

  /** `join_suffix` as shipped, on top of the shipped `split_char`. */
  function JoinSuffixAsWritten(s: string, jongSuffix: string): Result<string>
  {
    var (cho, jung, jong) :- SplitCharAsWritten(s);
    if cho != "" && jung != "" && jong == "" then JoinChar(cho, jung, jongSuffix)
    else Ok(s + jongSuffix)
  }

  // ---------------------------------------------------------------------
  // Offset arithmetic

  lemma {:induction false} OffsetBounds(ci: int, vi: int, ti: int)
    requires 0 <= ci < LeadCount && 0 <= vi < VowelCount && 0 <= ti < TrailCount
    ensures 0 <= (ci * VowelCount + vi) * TrailCount + ti < HangulCount
  {
    assert ci * VowelCount <= 18 * 21;
  }

  /** The three digits of an offset in the block, and the offset they make. */
  lemma {:induction false} DigitsOfOffset(ci: int, vi: int, ti: int)
    requires 0 <= ci < LeadCount && 0 <= vi < VowelCount && 0 <= ti < TrailCount
    ensures var o := (ci * VowelCount + vi) * TrailCount + ti;
            o / (VowelCount * TrailCount) == ci && (o / TrailCount) % VowelCount == vi &&
            o % TrailCount == ti
  {
    var o := (ci * VowelCount + vi) * TrailCount + ti;
    assert o == 28 * (ci * 21 + vi) + ti;
    assert o / 28 == ci * 21 + vi;
    assert o % 28 == ti;
    assert (ci * 21 + vi) % 21 == vi;
    assert o == 588 * ci + (28 * vi + ti);
    assert 0 <= 28 * vi + ti < 588;
    assert o / 588 == ci;
  }

  lemma {:induction false} OffsetOfDigits(o: int)
    requires 0 <= o < HangulCount
    ensures o / (VowelCount * TrailCount) < LeadCount
    ensures o == ((o / (VowelCount * TrailCount)) * VowelCount + (o / TrailCount) % VowelCount) * TrailCount
                 + o % TrailCount
  {
    var q := o / 28;
    assert o == 28 * q + o % 28;
    assert q == 21 * (q / 21) + q % 21;
    assert o == 588 * (q / 21) + 28 * (q % 21) + o % 28;
    assert 0 <= 28 * (q % 21) + o % 28 < 588;
    assert o / 588 == q / 21;
  }

  // ---------------------------------------------------------------------
  // Properties

  /** Each alphabet entry is non-empty (JONG_LIST's first aside) and is
      found by `tuple.index` at its own position. */
  lemma {:induction false} EntryIndex(ci: nat, vi: nat, ti: nat)
    requires ci < LeadCount && vi < VowelCount && ti < TrailCount
    ensures ChoList[ci] != "" && JungList[vi] != ""
    ensures IndexOf(ChoList, ChoList[ci]) == Ok(ci)
    ensures IndexOf(JungList, JungList[vi]) == Ok(vi)
    ensures IndexOf(JongList, JongList[ti]) == Ok(ti)
  {
    TablesDistinct();
    EmptyEntries(ci, vi, ti);
    IndexOfDistinct(ChoList, ci);
    IndexOfDistinct(JungList, vi);
    IndexOfDistinct(JongList, ti);
  }

  /** `join_char` of three alphabet entries is the syllable at their digits. */
  lemma {:induction false} JoinCharDigits(ci: nat, vi: nat, ti: nat)
    requires ci < LeadCount && vi < VowelCount && ti < TrailCount
    ensures 0 <= (ci * VowelCount + vi) * TrailCount + ti < HangulCount
    ensures JoinChar(ChoList[ci], JungList[vi], JongList[ti]) ==
            Ok([(HangulFirst + (ci * VowelCount + vi) * TrailCount + ti) as char])
  {
    OffsetBounds(ci, vi, ti);
    EntryIndex(ci, vi, ti);
  }

  /** The getters on a syllable with offset o from 가 pick the digits of o
      from the three alphabets; the syllable has a lead and a vowel, and a
      trail exactly when o is not a multiple of 28.  (`란` has offset 2944 =
      (5 * 21 + 0) * 28 + 4, the digits of ㄹ, ㅏ and ㄴ.) */
  lemma {:induction false} SyllableComponents(c: char)
    requires IsSyllable(c)
    ensures var o := c as int - HangulFirst;
            GetCho([c]) == Ok(ChoList[o / (VowelCount * TrailCount)]) &&
            GetJung([c]) == Ok(JungList[(o / TrailCount) % VowelCount]) &&
            GetJong([c]) == Ok(JongList[o % TrailCount])
    ensures var o := c as int - HangulFirst;
            HasCho([c]) == Ok(true) && HasJung([c]) == Ok(true) &&
            HasJong([c]) == Ok(o % TrailCount != 0)
  {
    var o := c as int - HangulFirst;
    JamoClasses([c]);
    OffsetOfDigits(o);
    assert IsFullHangul([c]);
    assert CharOffset([c]) == o;
    assert JongList[o % TrailCount] == "" <==> o % TrailCount == 0;
  }

  /** A syllable split by the getters joins back to itself. */
  lemma {:induction false} SplitJoinRoundTrip(c: char)
    requires IsSyllable(c)
    ensures SplitChar([c]).Ok?
    ensures var (cho, jung, jong) := SplitChar([c]).value;
            JoinChar(cho, jung, jong) == Ok([c])
  {
    var o := c as int - HangulFirst;
    SyllableComponents(c);
    OffsetOfDigits(o);
    JoinCharDigits(o / 588, (o / 28) % 21, o % 28);
  }

  /** Joining a lead, a vowel and a trail of the alphabets gives the
      syllable at their digits, and the getters recover the three
      components from it. */
  lemma {:induction false} JoinSplitRoundTrip(ci: nat, vi: nat, ti: nat)
    requires ci < LeadCount && vi < VowelCount && ti < TrailCount
    ensures var c := (HangulFirst + (ci * VowelCount + vi) * TrailCount + ti) as char;
            IsSyllable(c) &&
            JoinChar(ChoList[ci], JungList[vi], JongList[ti]) == Ok([c]) &&
            SplitChar([c]) == Ok((ChoList[ci], JungList[vi], JongList[ti]))
  {
    JoinCharDigits(ci, vi, ti);
    DigitsOfOffset(ci, vi, ti);
    var c := (HangulFirst + (ci * VowelCount + vi) * TrailCount + ti) as char;
    SyllableComponents(c);
  }

  /** Different component triples join to different syllables. */
  lemma {:induction false} JoinCharInjective(ci: nat, vi: nat, ti: nat, cj: nat, vj: nat, tj: nat)
    requires ci < LeadCount && vi < VowelCount && ti < TrailCount
    requires cj < LeadCount && vj < VowelCount && tj < TrailCount
    requires JoinChar(ChoList[ci], JungList[vi], JongList[ti]) == JoinChar(ChoList[cj], JungList[vj], JongList[tj])
    ensures ci == cj && vi == vj && ti == tj
  {
    JoinSplitRoundTrip(ci, vi, ti);
    JoinSplitRoundTrip(cj, vj, tj);
    TablesDistinct();
  }

  /** Bare jamo pass through: a lead is its own `get_cho` and has no vowel
      or trail; a vowel is its own `get_jung` and has no lead or trail; a
      trail that is not also a lead (ㄳ, ㅀ, ...), and '' itself, has no lead
      and no vowel, and then `get_jong` falls through to the offset -1 and
      answers JONG_LIST[-1 % 28] = 'ㅎ'. */
  lemma {:induction false} BareJamo(s: string)
    ensures IsCho(s) ==> GetCho(s) == Ok(s) && GetJung(s) == Ok("") && GetJong(s) == Ok("")
    ensures IsJung(s) ==> GetJung(s) == Ok(s) && GetCho(s) == Ok("") && GetJong(s) == Ok("")
    ensures IsJong(s) && !IsCho(s) ==> GetCho(s) == Ok("") && GetJung(s) == Ok("") && GetJong(s) == Ok("ㅎ")
  {
    JamoClasses(s);
    if IsJong(s) && !IsCho(s) {
      assert s == "" || (|s| == 1 && !IsFullHangul(s));
      assert CharOffset(s) == -1;
      NamedEntries();
    }
  }

  /** The branch of `get_jong` that returns its argument never fires on a
      string: every member of JONG_LIST has an empty `get_jung`. */
  lemma {:induction false} GetJongFirstBranchDead(s: string)
    ensures IsJong(s) ==> HasJung(s) == Ok(false)
  {
    JamoClasses(s);
  }

  /** Characters that are neither jamo nor syllables: one that
      `is_full_hangul` rejects, or a longer string, gets offset -1 and reads
      as ('ㄱ', 'ㅣ', 'ㅎ'), since int(-1 / 28 % 21) is 20; ' ', '.' and ','
      get offsets below -43000, for which CHO_LIST[int(o / 588)] is out of
      range, and ' ' reads MO_LIST[int(-44000 / 28 % 21)], which is 'ㅒ'. */
  lemma {:induction false} NonHangulGetters(s: string)
    requires !IsCho(s) && !IsJung(s) && !IsJong(s)
    requires !(|s| == 1 && IsSyllable(s[0]))
    ensures !(|s| == 1 && s[0] in " .,") ==>
              GetCho(s) == Ok("ㄱ") && GetJung(s) == Ok("ㅣ") && GetJong(s) == Ok("ㅎ")
    ensures |s| == 1 && s[0] in " .," ==> GetCho(s) == Err(IndexError)
    ensures s == " " ==> GetJung(s) == Ok("ㅒ")
  {
    JamoClasses(s);
    NamedEntries();
    if |s| == 1 && s[0] in " .," {
      assert IsFullHangul(s);
      if s == " " {
        assert CharOffset(s) == -44000;
        assert (-44000 / TrailCount) % VowelCount == 3;
      }
    } else {
      if |s| == 1 { assert !IsFullHangul(s); }
      assert CharOffset(s) == -1;
      assert TruncDiv(-1, 588) == 0 && (-1 / 28) % 21 == 20;
    }
  }

  /** `has_*` judges a longer string by its last character. */
  lemma {:induction false} HasLooksAtLastChar(s: string)
    requires |s| > 1
    ensures HasCho(s) == HasCho([s[|s| - 1]])
    ensures HasJung(s) == HasJung([s[|s| - 1]])
    ensures HasJong(s) == HasJong([s[|s| - 1]])
  {
  }

  /** `split_char` as shipped raises on every input: TypeError once the
      offset is usable, IndexError first when `get_cho` already fails on the
      offset of ' ', '.' or ','. */
  lemma {:induction false} SplitCharAsWrittenAlwaysFails(s: string)
    ensures SplitCharAsWritten(s).Err?
    ensures |s| == 1 && IsSyllable(s[0]) ==> SplitCharAsWritten(s) == Err(TypeError)
    ensures SplitCharAsWritten(" ") == Err(IndexError)
  {
    assert IsFullHangul(" ");
    assert TruncDiv(CharOffset(" "), 588) == -74;
    if |s| == 1 && IsSyllable(s[0]) {
      var o := s[0] as int - HangulFirst;
      assert 0 <= TruncDiv(o, 588) < 19 by { OffsetOfDigits(o); }
    }
  }

  /** So `join_suffix` as shipped raises on every input too. */
  lemma {:induction false} JoinSuffixAsWrittenAlwaysFails(s: string, jongSuffix: string)
    ensures JoinSuffixAsWritten(s, jongSuffix).Err?
  {
    SplitCharAsWrittenAlwaysFails(s);
  }

  lemma {:induction false} JoinSuffixUnfold(s: string, jongSuffix: string)
    requires SplitChar(s).Ok?
    ensures var (cho, jung, jong) := SplitChar(s).value;
            JoinSuffix(s, jongSuffix) ==
            if cho != "" && jung != "" && jong == "" then JoinChar(cho, jung, jongSuffix)
            else Ok(s + jongSuffix)
  {
  }

  /** SplitChar of a syllable gives a lead, a vowel and a trail that is
      empty exactly when the offset is a multiple of 28. */
  lemma {:induction false} SplitCharShape(c: char)
    requires IsSyllable(c)
    ensures SplitChar([c]).Ok?
    ensures var o := c as int - HangulFirst;
            var (cho, jung, jong) := SplitChar([c]).value;
            IsCho(cho) && IsJung(jung) && (jong == "" <==> o % TrailCount == 0)
  {
    var o := c as int - HangulFirst;
    OffsetOfDigits(o);
    SyllableComponents(c);
    EntryClasses(o / (VowelCount * TrailCount), (o / TrailCount) % VowelCount, o % TrailCount);
    EmptyEntries(0, 0, o % TrailCount);
  }

  /** The syllable of lead ci and vowel vi without a trail takes trail
      number ti as its trail, and becomes the syllable of all three digits. */
  lemma {:induction false} JoinSuffixAddsTrail(ci: nat, vi: nat, ti: nat)
    requires ci < LeadCount && vi < VowelCount && ti < TrailCount
    ensures JoinSuffix([(HangulFirst + (ci * VowelCount + vi) * TrailCount) as char], JongList[ti]) ==
            Ok([(HangulFirst + (ci * VowelCount + vi) * TrailCount + ti) as char])
  {
    JoinSplitRoundTrip(ci, vi, 0);
    EmptyEntries(ci, vi, 0);
    JoinSuffixUnfold([(HangulFirst + (ci * VowelCount + vi) * TrailCount) as char], JongList[ti]);
    JoinCharDigits(ci, vi, ti);
  }

  /** A syllable without a trail rejects a suffix that is not a trail. */
  lemma {:induction false} JoinSuffixRejects(c: char, jongSuffix: string)
    requires IsSyllable(c) && (c as int - HangulFirst) % TrailCount == 0
    requires !IsJong(jongSuffix)
    ensures JoinSuffix([c], jongSuffix) == Err(ValueError)
  {
    SplitCharShape(c);
    JoinSuffixUnfold([c], jongSuffix);
  }

  /** A syllable with a trail gets the suffix appended. */
  lemma {:induction false} JoinSuffixAppends(c: char, jongSuffix: string)
    requires IsSyllable(c) && (c as int - HangulFirst) % TrailCount != 0
    ensures JoinSuffix([c], jongSuffix) == Ok([c] + jongSuffix)
  {
    SplitCharShape(c);
    JoinSuffixUnfold([c], jongSuffix);
  }

  /** A syllable without a trail takes a trail suffix: the result is the
      syllable moved forward by the suffix's position in JONG_LIST. */
  lemma {:induction false} JoinSuffixTakesTrail(c: char, jongSuffix: string)
    requires IsSyllable(c) && (c as int - HangulFirst) % TrailCount == 0
    requires IsJong(jongSuffix)
    ensures IndexOf(JongList, jongSuffix).Ok?
    ensures JoinSuffix([c], jongSuffix) == Ok([(c as int + IndexOf(JongList, jongSuffix).value) as char])
  {
    var o := c as int - HangulFirst;
    MembershipTests(jongSuffix);
    IndexOfSpec(JongList, jongSuffix);
    var ti := IndexOf(JongList, jongSuffix).value;
    assert JongList[ti] == jongSuffix;
    var ci, vi := o / (VowelCount * TrailCount), (o / TrailCount) % VowelCount;
    var base := HangulFirst + (ci * VowelCount + vi) * TrailCount;
    assert base == c as int && ci < LeadCount by { OffsetOfDigits(o); }
    JoinSuffixAddsTrail(ci, vi, ti);
    assert [base as char] == [c];
    assert [(base + ti) as char] == [(c as int + ti) as char];
  }

  /** `join_suffix` (built on SplitChar) on a syllable: without a trail the
      suffix becomes its trail, or ValueError if the suffix is not a trail;
      with a trail the suffix is appended as it is. */
  lemma {:induction false} JoinSuffixOnSyllable(c: char, jongSuffix: string)
    requires IsSyllable(c)
    ensures var o := c as int - HangulFirst;
            o % TrailCount == 0 && IsJong(jongSuffix) ==>
              IndexOf(JongList, jongSuffix).Ok? &&
              JoinSuffix([c], jongSuffix) ==
              Ok([(c as int + IndexOf(JongList, jongSuffix).value) as char])
    ensures var o := c as int - HangulFirst;
            o % TrailCount == 0 && !IsJong(jongSuffix) ==>
              JoinSuffix([c], jongSuffix) == Err(ValueError)
    ensures var o := c as int - HangulFirst;
            o % TrailCount != 0 ==> JoinSuffix([c], jongSuffix) == Ok([c] + jongSuffix)
  {
    var o := c as int - HangulFirst;
    if o % TrailCount != 0 {
      JoinSuffixAppends(c, jongSuffix);
    } else if IsJong(jongSuffix) {
      JoinSuffixTakesTrail(c, jongSuffix);
    } else {
      JoinSuffixRejects(c, jongSuffix);
    }
  }

  /** ㄱ, ㅏ and the trail ㄱ join to '각', the syllable right after '가'. */
  lemma {:induction false} JoinCharExample()
    ensures JoinChar("ㄱ", "ㅏ", "ㄱ") == Ok("각")
  {
    NamedEntries();
    JoinCharDigits(0, 0, 1);
    assert (HangulFirst + (0 * VowelCount + 0) * TrailCount + 1) as char == '각';
  }

  /** The syllables of "안녕하세요" and their letters. */
  lemma {:induction false} GreetingSyllables()
    ensures JoinChar("ㅇ", "ㅏ", "ㄴ") == Ok("안")
    ensures JoinChar("ㄴ", "ㅕ", "ㅇ") == Ok("녕")
    ensures JoinChar("ㅎ", "ㅏ") == Ok("하")
    ensures JoinChar("ㅅ", "ㅔ") == Ok("세")
    ensures JoinChar("ㅇ", "ㅛ") == Ok("요")
  {
    NamedEntries();
    JoinCharDigits(11, 0, 4);
    JoinCharDigits(2, 6, 21);
    JoinCharDigits(18, 0, 0);
    JoinCharDigits(9, 5, 0);
    JoinCharDigits(11, 12, 0);
    assert (HangulFirst + (11 * VowelCount + 0) * TrailCount + 4) as char == '안';
    assert (HangulFirst + (2 * VowelCount + 6) * TrailCount + 21) as char == '녕';
    assert (HangulFirst + (18 * VowelCount + 0) * TrailCount + 0) as char == '하';
    assert (HangulFirst + (9 * VowelCount + 5) * TrailCount + 0) as char == '세';
    assert (HangulFirst + (11 * VowelCount + 12) * TrailCount + 0) as char == '요';
  }

  /** Worked example: '란' splits into ㄹ, ㅏ, ㄴ and
      they join back to '란'. */
  lemma {:induction false} SplitJoinExample()
    ensures SplitChar("란") == Ok(("ㄹ", "ㅏ", "ㄴ"))
    ensures JoinChar("ㄹ", "ㅏ", "ㄴ") == Ok("란")
  {
    NamedEntries();
    JoinSplitRoundTrip(5, 0, 4);
    assert (HangulFirst + (5 * VowelCount + 0) * TrailCount + 4) as char == '란';
  }

  /** '가' has no trail and takes the suffix ㄴ as one ('간'). */
  lemma {:induction false} JoinSuffixAddsTrailExample()
    ensures JoinSuffix("가", "ㄴ") == Ok("간")
  {
    NamedEntries();
    JoinSuffixAddsTrail(0, 0, 4);
    assert (HangulFirst + (0 * VowelCount + 0) * TrailCount) as char == '가';
    assert (HangulFirst + (0 * VowelCount + 0) * TrailCount + 4) as char == '간';
  }

  /** '간' already has a trail, so the suffix ㄴ is appended ("간ㄴ"). */
  lemma {:induction false} JoinSuffixAppendsExample()
    ensures JoinSuffix("간", "ㄴ") == Ok("간ㄴ")
  {
    JoinSuffixOnSyllable('간', "ㄴ");
    assert ('간' as int - HangulFirst) % TrailCount == 4;
    assert "간" == ['간'] && "간ㄴ" == ['간'] + "ㄴ";
  }
}
