/** The text filters of HangulUtil: dropping the syllables or the English
    letters of a string, and `remain_han_eng`, which blanks out every
    character outside a fixed set and trims the ends. */
module HangulText {
  import opened PyTypes
  import opened HangulTables
  import opened HangulClassify

  /** The characters of s for which drop is false, in their order. */
  function Without(s: string, drop: char -> bool): string
  {
    if s == [] then []
    else Without(s[..|s| - 1], drop) + (if drop(s[|s| - 1]) then [] else [s[|s| - 1]])
  }

  /** Filtering works character by character, so it distributes over `+`. */
  lemma {:induction false} WithoutAppend(a: string, b: string, drop: char -> bool)
    ensures Without(a + b, drop) == Without(a, drop) + Without(b, drop)
  {
    if b == [] {
      assert a + b == a;
    } else {
      var ab := a + b;
      assert ab[..|ab| - 1] == a + b[..|b| - 1];
      assert ab[|ab| - 1] == b[|b| - 1];
      WithoutAppend(a, b[..|b| - 1], drop);
    }
  }

  /** What survives is exactly the characters drop rejects, and the length
      can only shrink. */
  lemma {:induction false} WithoutMembers(s: string, drop: char -> bool)
    ensures forall c :: c in Without(s, drop) <==> c in s && !drop(c)
    ensures |Without(s, drop)| <= |s|
  {
    if s != [] {
      var front, last := s[..|s| - 1], s[|s| - 1];
      WithoutMembers(front, drop);
      assert s == front + [last];
    }
  }

  /** A string is left as it is exactly when nothing in it is dropped. */
  lemma {:induction false} WithoutUnchanged(s: string, drop: char -> bool)
    ensures Without(s, drop) == s <==> forall i :: 0 <= i < |s| ==> !drop(s[i])
  {
    WithoutMembers(s, drop);
    if s != [] {
      var front, last := s[..|s| - 1], s[|s| - 1];
      WithoutUnchanged(front, drop);
      WithoutMembers(front, drop);
      assert forall i :: 0 <= i < |front| ==> s[i] == front[i];
      if Without(s, drop) == s {
        assert last in s;
        var w := Without(front, drop);
        assert w == front by {
          assert Without(s, drop) == w + [last];
          assert w == Without(s, drop)[..|w|];
        }
      }
    }
  }

  /** Filtering twice is filtering once. */
  lemma WithoutIdempotent(s: string, drop: char -> bool)
    ensures Without(Without(s, drop), drop) == Without(s, drop)
  {
    var w := Without(s, drop);
    WithoutMembers(s, drop);
    WithoutUnchanged(w, drop);
    assert forall i :: 0 <= i < |w| ==> w[i] in w;
  }

  /** `get_except_hangul`: the characters for which `is_hangul_char` is not
      true, appended one by one. */
  method GetExceptHangul(value: string) returns (chars: string)
    ensures chars == Without(value, IsSyllable)
  {
    chars := "";
    for k := 0 to |value|
      invariant chars == Without(value[..k], IsSyllable)
    {
      if IsHangulChar([value[k]]) != Some(true) {
        chars := chars + [value[k]];
      }
      assert value[..k + 1][..k] == value[..k];
    }
    assert value[..|value|] == value;
  }

  /** `get_except_english`: the characters for which `is_english_char` is
      not true. */
  method GetExceptEnglish(value: string) returns (chars: string)
    ensures chars == Without(value, IsEnglish)
  {
    chars := "";
    for k := 0 to |value|
      invariant chars == Without(value[..k], IsEnglish)
    {
      if IsEnglishChar([value[k]]) != Some(true) {
        chars := chars + [value[k]];
      }
      assert value[..k + 1][..k] == value[..k];
    }
    assert value[..|value|] == value;
  }

  /** `get_except_hangul` removes exactly the syllables: none is left, every
      other character is, and the string comes back unchanged exactly when
      it has no Hangul; English letters are untouched. */
  lemma {:induction false} ExceptHangulLaws(value: string)
    ensures !HasHangul(Without(value, IsSyllable))
    ensures forall c :: c in Without(value, IsSyllable) <==> c in value && !IsSyllable(c)
    ensures Without(value, IsSyllable) == value <==> !HasHangul(value)
    ensures HasEnglish(Without(value, IsSyllable)) <==> HasEnglish(value)
  {
    var r := Without(value, IsSyllable);
    WithoutMembers(value, IsSyllable);
    WithoutUnchanged(value, IsSyllable);
    if HasEnglish(r) {
      var i :| 0 <= i < |r| && IsEnglish(r[i]);
      assert r[i] in r;
    }
    if HasEnglish(value) {
      var i :| 0 <= i < |value| && IsEnglish(value[i]);
      assert value[i] in r;
      var j :| 0 <= j < |r| && r[j] == value[i];
    }
  }

  /** `get_except_english` removes exactly the ASCII letters; syllables are
      untouched. */
  lemma {:induction false} ExceptEnglishLaws(value: string)
    ensures !HasEnglish(Without(value, IsEnglish))
    ensures forall c :: c in Without(value, IsEnglish) <==> c in value && !IsEnglish(c)
    ensures Without(value, IsEnglish) == value <==> !HasEnglish(value)
    ensures HasHangul(Without(value, IsEnglish)) <==> HasHangul(value)
  {
    var r := Without(value, IsEnglish);
    WithoutMembers(value, IsEnglish);
    WithoutUnchanged(value, IsEnglish);
    if HasHangul(r) {
      var i :| 0 <= i < |r| && IsSyllable(r[i]);
      assert r[i] in r;
    }
    if HasHangul(value) {
      var i :| 0 <= i < |value| && IsSyllable(value[i]);
      assert value[i] in r;
      var j :| 0 <= j < |r| && r[j] == value[i];
    }
  }

  /** Whitespace as Python's `str.isspace` and the `\s` of its regular
      expressions on str patterns see it. */
  predicate IsSpace(c: char)
  {
    ('\t' <= c <= '\r') || ('\U{1C}' <= c <= '\U{1F}') || c == ' ' || c == '\U{85}' ||
    c == '\U{A0}' || c == '\U{1680}' || ('\U{2000}' <= c <= '\U{200A}') ||
    c == '\U{2028}' || c == '\U{2029}' || c == '\U{202F}' || c == '\U{205F}' || c == '\U{3000}'
  }

  /** The punctuation the class of `han_eng_re` lists besides the ranges. */
  const KeptSymbols: string := "~!@#=^$%&_+:\";',.?/(){}[]"

  /** A character `han_eng_re` does not match: a consonant letter ㄱ..ㅎ, a
      syllable, an ASCII digit or letter, one of the listed symbols, or
      whitespace. */
  predicate IsKept(c: char)
  {
    ('ㄱ' <= c <= 'ㅎ') || IsSyllable(c) || ('0' <= c <= '9') || IsEnglish(c) ||
    c in KeptSymbols || IsSpace(c)
  }

  /** `han_eng_re.sub(' ', s)`: each character the class matches becomes one
      space, the others stay where they are. */
  function Blank(s: string): (r: string)
    ensures |r| == |s|
    ensures forall i :: 0 <= i < |s| ==> r[i] == if IsKept(s[i]) then s[i] else ' '
  {
    if s == [] then [] else [if IsKept(s[0]) then s[0] else ' '] + Blank(s[1..])
  }

  /** `s.split(sep)`: the pieces between the separators, empty ones
      included, so there is always one more piece than separators. */
  function SplitOn(s: string, sep: char): (parts: seq<string>)
    ensures |parts| >= 1
    ensures forall i :: 0 <= i < |parts| ==> sep !in parts[i]
    decreases |s|
  {
    if s == [] then [""]
    else
      var rest := SplitOn(s[1..], sep);
      if s[0] == sep then [""] + rest else [[s[0]] + rest[0]] + rest[1..]
  }

  /** `sep.join(parts)`. */
  function JoinWith(sep: char, parts: seq<string>): string
  {
    if parts == [] then ""
    else if |parts| == 1 then parts[0]
    else parts[0] + [sep] + JoinWith(sep, parts[1..])
  }

  /** Joining the pieces of a split with the same separator restores the
      string: the `' '.join(....split(' '))` of `remain_han_eng` changes
      nothing. */
  lemma {:induction false} JoinSplit(s: string, sep: char)
    ensures JoinWith(sep, SplitOn(s, sep)) == s
    decreases |s|
  {
    if s != [] {
      var rest := SplitOn(s[1..], sep);
      JoinSplit(s[1..], sep);
      if s[0] == sep {
        assert SplitOn(s, sep)[1..] == rest;
      } else {
        var parts := SplitOn(s, sep);
        assert parts[0] == [s[0]] + rest[0];
        assert parts[1..] == rest[1..];
        if |rest| > 1 {
          assert JoinWith(sep, rest) == rest[0] + [sep] + JoinWith(sep, rest[1..]);
        }
      }
      assert s == [s[0]] + s[1..];
    }
  }

  /** Splitting a join of separator-free pieces gives the pieces back. */
  lemma {:induction false} SplitJoin(parts: seq<string>, sep: char)
    requires |parts| >= 1
    requires forall i :: 0 <= i < |parts| ==> sep !in parts[i]
    ensures SplitOn(JoinWith(sep, parts), sep) == parts
  {
    if |parts| == 1 {
      SplitPlain(parts[0], [], sep);
    } else {
      SplitJoin(parts[1..], sep);
      SplitPlain(parts[0], JoinWith(sep, parts[1..]), sep);
      assert [parts[0]] + parts[1..] == parts;
    }
  }

  /** A separator-free prefix p becomes the first piece, and what follows
      the next separator, if any, is split on its own. */
  lemma {:induction false} SplitPlain(p: string, t: string, sep: char)
    requires sep !in p
    ensures t == [] ==> SplitOn(p, sep) == [p]
    ensures SplitOn(p + [sep] + t, sep) == [p] + SplitOn(t, sep)
    decreases |p|
  {
    if p == [] {
      assert p + [sep] + t == [sep] + t;
      assert ([sep] + t)[1..] == t;
    } else {
      SplitPlain(p[1..], t, sep);
      assert (p + [sep] + t)[1..] == p[1..] + [sep] + t;
      assert [p[0]] + p[1..] == p;
    }
  }

  /** `str.strip()` from the left: the leading whitespace goes. */
  function StripLeft(s: string): (r: string)
    ensures |r| <= |s|
    decreases |s|
  {
    if s != [] && IsSpace(s[0]) then StripLeft(s[1..]) else s
  }

  /** ... and from the right. */
  function StripRight(s: string): (r: string)
    ensures |r| <= |s|
    decreases |s|
  {
    if s != [] && IsSpace(s[|s| - 1]) then StripRight(s[..|s| - 1]) else s
  }

  /** `s.strip()`. */
  function Strip(s: string): string
  {
    StripRight(StripLeft(s))
  }

  /** Stripping the left keeps a suffix, and drops only whitespace, and no
      more than that. */
  lemma {:induction false} StripLeftLaws(s: string)
    ensures StripLeft(s) == s[|s| - |StripLeft(s)|..]
    ensures forall k :: 0 <= k < |s| - |StripLeft(s)| ==> IsSpace(s[k])
    ensures StripLeft(s) == [] || !IsSpace(StripLeft(s)[0])
    decreases |s|
  {
    if s != [] && IsSpace(s[0]) {
      StripLeftLaws(s[1..]);
      assert forall k :: 1 <= k < |s| ==> s[k] == s[1..][k - 1];
    }
  }

  /** Stripping the right keeps a prefix, and drops only whitespace. */
  lemma {:induction false} StripRightLaws(s: string)
    ensures StripRight(s) == s[..|StripRight(s)|]
    ensures forall k :: |StripRight(s)| <= k < |s| ==> IsSpace(s[k])
    ensures StripRight(s) == [] || !IsSpace(StripRight(s)[|StripRight(s)| - 1])
    decreases |s|
  {
    if s != [] && IsSpace(s[|s| - 1]) {
      StripRightLaws(s[..|s| - 1]);
    }
  }

  /** Stripping the right of a string that does not start with whitespace
      gives one that still does not. */
  lemma StripRightKeepsFront(s: string)
    requires s == [] || !IsSpace(s[0])
    ensures StripRight(s) == [] || !IsSpace(StripRight(s)[0])
  {
    StripRightLaws(s);
  }

  /** `strip()` leaves a slice of s with whitespace neither at the front
      nor at the back, cutting only whitespace on either side; it is
      idempotent. */
  lemma StripLaws(s: string)
    ensures var r, lead := Strip(s), |s| - |StripLeft(s)|;
      lead + |r| <= |s| && r == s[lead .. lead + |r|] &&
      (forall k :: 0 <= k < lead ==> IsSpace(s[k])) &&
      (forall k :: lead + |r| <= k < |s| ==> IsSpace(s[k]))
    ensures Strip(s) == [] || (!IsSpace(Strip(s)[0]) && !IsSpace(Strip(s)[|Strip(s)| - 1]))
    ensures Strip(Strip(s)) == Strip(s)
  {
    var t := StripLeft(s);
    StripLeftLaws(s);
    StripRightLaws(t);
    StripRightKeepsFront(t);
    var r := StripRight(t);
    var lead := |s| - |t|;
    assert r == s[lead .. lead + |r|];
    forall k | lead + |r| <= k < |s|
      ensures IsSpace(s[k])
    {
      assert s[k] == t[k - lead];
    }
    assert StripLeft(r) == r;
    assert StripRight(r) == r;
  }

  /** `remain_han_eng(s)`. */
  function RemainHanEng(s: string): string
  {
    Strip(JoinWith(' ', SplitOn(Blank(s), ' ')))
  }

  /** The split and join in `remain_han_eng` cancel, so it is the blanked
      string, trimmed: each character the class matches becomes one space
      in place, and runs of spaces inside are not collapsed. */
  lemma RemainHanEngIsStripBlank(s: string)
    ensures RemainHanEng(s) == Strip(Blank(s))
  {
    JoinSplit(Blank(s), ' ');
  }

  /** `remain_han_eng` keeps only characters outside the class, is no longer
      than its input, and has whitespace at neither end. */
  lemma RemainHanEngLaws(s: string)
    ensures forall c :: c in RemainHanEng(s) ==> IsKept(c)
    ensures |RemainHanEng(s)| <= |s|
    ensures RemainHanEng(s) == [] ||
      (!IsSpace(RemainHanEng(s)[0]) && !IsSpace(RemainHanEng(s)[|RemainHanEng(s)| - 1]))
  {
    var b := Blank(s);
    RemainHanEngIsStripBlank(s);
    StripLaws(b);
    var r := Strip(b);
    var lead := |b| - |StripLeft(b)|;
    forall c | c in r
      ensures IsKept(c)
    {
      var k :| 0 <= k < |r| && r[k] == c;
      assert c == b[lead + k];
    }
  }

  /** A string of kept characters with no whitespace at either end comes
      back unchanged. */
  lemma RemainHanEngKeeps(s: string)
    requires forall i :: 0 <= i < |s| ==> IsKept(s[i])
    requires s == [] || (!IsSpace(s[0]) && !IsSpace(s[|s| - 1]))
    ensures RemainHanEng(s) == s
  {
    RemainHanEngIsStripBlank(s);
    assert Blank(s) == s;
    assert StripLeft(s) == s;
    assert StripRight(s) == s;
  }
}
