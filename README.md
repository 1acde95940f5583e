# Hangul utilities and list partitioning, modelled in Dafny

This project models two helper classes of the nlp4kor `bage_utils` package.

`HangulUtil` (`bage_utils/hangul_util.py`) works on modern Hangul syllables.
- Three alphabets are built by `to_sequence`: 19 leads (초성), 21 vowels (중성) and 28 trails (종성), the first trail being `''`.
- The block 가..힣 is laid out as `0xAC00 + (lead * 21 + vowel) * 28 + trail`, as in section 3.12 of the Unicode Standard.
- On top of these sit:
  - the component getters and `has_*` tests;
  - `join_char`, `split_char` and `join_suffix`;
  - the string codec `split_string` / `join_string`, where `join_string` is a greedy right-to-left scan;
  - `qwerty_to_hangul`, which maps keys of the two-set keyboard layout to letters;
  - the classifiers (`has_*`, `is_*_char`, `is_full_hangul*`, `is_moum` / `is_jaum` / `is_cho` / `is_jung` / `is_jong`);
  - the filters `get_except_hangul`, `get_except_english` and `remain_han_eng`.

`ListUtil` (`bage_utils/list_util.py`) has three functions:
- `remove_emtpy` drops empty elements.
- `chunks` cuts a list into fixed-size pieces.
- `chunks_by_split` cuts a list into `max_split` nearly equal pieces.

Modules:
- `PyTypes` (`py_types.dfy`): the Python semantics relied on.
  - Exceptions become a `Result`, `None` an `Option`.
  - Also modelled: negative indexing, clamped slice bounds, `int(a / b)`, floor `//` and `%`, and `''.join`.
- `HangulTables` (`hangul_tables.dfy`): `to_sequence`, the alphabets, the code-point ranges and the keyboard table.
- `HangulClassify` (`hangul_classify.dfy`): the predicates.
- `HangulCodec` (`hangul_codec.dfy`): the character offset, the getters, `join_char`, `split_char` and `join_suffix`.
- `HangulJoin` (`hangul_join.dfy`): `split_string`, `join_string` and `qwerty_to_hangul`.
- `HangulText` (`hangul_text.dfy`): `get_except_*` and `remain_han_eng`.
- `ListUtil` (`list_util.dfy`).

Code that builds its result in a loop is modelled as a `method` with a loop. Each such method is proved equal to a specification function, and the properties are lemmas about that function. These are `join_string`, `split_string`, `qwerty_to_hangul`, `get_except_*`, `chunks` and `chunks_by_split`.

`remain_han_eng` (line 64) replaces each character outside the kept class with one space. Its `' '.join(x.split(' '))` then gives back `x` unchanged, so interior runs of spaces stay. Only `strip()` removes anything: the whitespace at both ends. See `HangulText.RemainHanEngIsStripBlank`.

## Model

| member | source | states |
|---|---|---|
| HangulTables.TableShapes | bage_utils/hangul_util.py:31-44 | The alphabets are what `to_sequence` makes of the literal strings: 19, 21 and 28 entries, with `''` first among the trails (30 consonants in JA_LIST). 19 * 21 * 28 = 11172, the size of 가..힣. |
| HangulTables.ToSequenceLaw | bage_utils/hangul_util.py:12-18 | `to_sequence` distributes over its arguments. An empty string becomes one `''` element; a non-empty one becomes its one-character strings. |
| HangulTables.TablesAsWritten | bage_utils/hangul_util.py:31-34 | The alphabets, defined by code-point arithmetic, are exactly the literal strings of the source. |
| HangulTables.LetterTables | bage_utils/hangul_util.py:31-34 | A character is in CHO / JUNG / JONG / JA exactly when it satisfies the matching range predicate. |
| HangulTables.TablesDistinct | bage_utils/hangul_util.py:31-34 | No alphabet repeats an entry. |
| HangulTables.TableIndex | bage_utils/hangul_util.py:367 | `tuple.index` finds each entry of an alphabet at its own position. |
| HangulTables.IndexOfSpec | bage_utils/hangul_util.py:367 | `tuple.index` succeeds iff the value is present. It then returns its first position; otherwise it raises ValueError. |
| HangulTables.IndexOfDistinct | bage_utils/hangul_util.py:367 | In a list without repeats, `index` of the i-th element is i. |
| HangulTables.EmptyEntries | bage_utils/hangul_util.py:31-33 | Only trail 0 is empty; no lead or vowel is. |
| HangulTables.NamedEntries | bage_utils/hangul_util.py:31-33 | Positions of the letters the worked examples use (e.g. ㄹ is lead 5, ㄴ is trail 4). |
| HangulTables.KeyTableIsADict | bage_utils/hangul_util.py:53-55 | Both key strings have 33 characters and the English keys are distinct, so `dict(zip(...))` keeps every pair. |
| HangulTables.KeyToJamoSpec | bage_utils/hangul_util.py:53-55 | The key lookup finds a letter iff the character is a key. The letter found is the one paired with the key. |
| HangulTables.GreetingKeys | bage_utils/hangul_util.py:53-55 | The keys d k s u g t p y map to ㅇ ㅏ ㄴ ㅕ ㅎ ㅅ ㅔ ㅛ. |
| HangulTables.ToSequence | bage_utils/hangul_util.py:12-18 | `to_sequence`; ToSequenceLaw states its laws. |
| HangulTables.IndexOf | bage_utils/hangul_util.py:367 | `tuple.index`: a position inside the list, or ValueError. IndexOfSpec states the rest. |
| HangulTables.KeyToJamo | bage_utils/hangul_util.py:53-55 | The lookup in KEY_ENG_TO_HAN; KeyToJamoSpec states its laws. |
| HangulTables.InLetters | bage_utils/hangul_util.py:12-18 | A string is an entry of the tuple of a string's characters iff it is one of those characters. |
| HangulClassify.HasHangul | bage_utils/hangul_util.py:147-159 | `has_hangul`: some character is a syllable. PredicatesOverConcat and PredicateRelations state its laws. |
| HangulClassify.HasEnglish | bage_utils/hangul_util.py:80-92 | `has_english`: some character is an ASCII letter. |
| HangulClassify.HasHanja | bage_utils/hangul_util.py:161-173 | `has_hanja`: some character lies in 一..龥. |
| HangulClassify.IsFullHangul | bage_utils/hangul_util.py:112-127 | `is_full_hangul`: every character is a space, excluded, or a syllable. |
| HangulClassify.IsFullHangulOrEnglish | bage_utils/hangul_util.py:129-145 | `is_full_hangul_or_english`: the same, with ASCII letters also accepted. |
| HangulClassify.IsHangulChar | bage_utils/hangul_util.py:175-190 | None (the swallowed TypeError of `ord`) iff the string is longer than one character. Otherwise it agrees with `has_hangul` on the same string: False on `''`, the range test on one character. |
| HangulClassify.IsEnglishChar | bage_utils/hangul_util.py:192-207 | The same, against `has_english`. |
| HangulClassify.IsHanjaChar | bage_utils/hangul_util.py:209-224 | The same, against `has_hanja`. |
| HangulClassify.MembershipTests | bage_utils/hangul_util.py:226-265 | `is_cho`, `is_jung`, `is_moum`, `is_jaum` and `is_jong` are exactly membership in their alphabet, `''` included for `is_jong`. |
| HangulClassify.EntryClasses | bage_utils/hangul_util.py:242-265 | Every alphabet entry passes its own class test. |
| HangulClassify.JamoClasses | bage_utils/hangul_util.py:226-265 | `''` is a trail and nothing else. Leads and non-empty trails are consonants. Vowels are in no consonant class. A syllable is in no letter class. |
| HangulClassify.CharClassifiers | bage_utils/hangul_util.py:175-224 | The three character classes are disjoint: when one of `is_hangul_char`, `is_english_char` and `is_hanja_char` says True, the other two say False. |
| HangulClassify.PredicatesOverConcat | bage_utils/hangul_util.py:112-174 | On a concatenation, `has_*` is the disjunction and `is_full_hangul*` the conjunction of the two halves. |
| HangulClassify.PredicateRelations | bage_utils/hangul_util.py:112-145 | `is_full_hangul` implies `is_full_hangul_or_english`. A non-empty all-Hangul word with no space and no excluded character has Hangul. An English letter outside the exclusions refutes `is_full_hangul`. |
| HangulClassify.ClassifierExamples | bage_utils/hangul_util.py:112-160 | Worked cases: `'가나다'`, `'하 바'` and `'합병한다.'` are fully Hangul; `'차세대-폐렴구균백신'` is not; `''` is fully Hangul without having Hangul. |
| HangulCodec.CharOffset | bage_utils/hangul_util.py:94-110 | A one-character string that is a syllable, `' '`, `'.'` or `','` gets `ord(c) - 0xAC00`, its offset from 가 (negative for the three punctuation characters, which `is_full_hangul` lets through). Every other string gets -1. |
| HangulCodec.IntOffset | bage_utils/hangul_util.py:101-110 | An int below the end of the block (negative ones included) comes back unchanged. One at or past the end becomes -1, so the result always lies below the end. |
| HangulCodec.ChoAt | bage_utils/hangul_util.py:279 | `CHO_LIST[int(offset / 588)]`: a non-empty lead, or IndexError when the truncated quotient is out of range. Every offset from -1 to the end of the block succeeds. |
| HangulCodec.JungAt | bage_utils/hangul_util.py:291 | `MO_LIST[int(offset / 28 % 21)]`: the float `%` comes before `int`, so the index is the floored quotient modulo 21. It never raises and always gives a non-empty vowel. |
| HangulCodec.JongAt | bage_utils/hangul_util.py:303 | `JONG_LIST[offset % 28]` never raises. It is `''` iff the offset is a multiple of 28. |
| HangulCodec.GetCho | bage_utils/hangul_util.py:266-279 | A lead or `''`. It raises IndexError exactly on `' '`, `'.'` and `','`. |
| HangulCodec.GetJung | bage_utils/hangul_util.py:281-291 | Never raises; the result is a vowel or `''`. |
| HangulCodec.GetJong | bage_utils/hangul_util.py:293-303 | Never raises; the result is an entry of JONG_LIST, and `''` for a lead or a vowel. |
| HangulCodec.HasCho | bage_utils/hangul_util.py:305-313 | Judges the last character. It raises iff that character is `' '`, `'.'` or `','`; otherwise it is True iff that character is a lead or is neither a vowel nor a trail. |
| HangulCodec.HasJung | bage_utils/hangul_util.py:315-323 | Judges the last character and never raises: True iff it is a vowel, or neither a lead nor a trail. |
| HangulCodec.HasJong | bage_utils/hangul_util.py:325-333 | Judges the last character and never raises: False for a lead or vowel; for a syllable, True iff its offset is not a multiple of 28. |
| HangulCodec.JoinChar | bage_utils/hangul_util.py:356-369 | A missing lead or vowel returns `cho or jung`, ignoring the trail. Otherwise: a syllable of 가..힣 at the components' digits when all three are alphabet entries, and ValueError when one is not. |
| HangulCodec.DigitsOfOffset | bage_utils/hangul_util.py:279-303 | Taking the offset `(ci * 21 + vi) * 28 + ti` apart with `/ 588`, `/ 28 % 21` and `% 28` gives back ci, vi and ti. |
| HangulCodec.OffsetOfDigits | bage_utils/hangul_util.py:279-303 | Every offset in the block is rebuilt from its three digits, and its lead digit is below 19. |
| HangulCodec.JoinCharDigits | bage_utils/hangul_util.py:364-369 | `join_char` of three alphabet entries is `chr(0xAC00 + (ci * 21 + vi) * 28 + ti)`. |
| HangulCodec.JoinCharInjective | bage_utils/hangul_util.py:364-369 | Different component triples join to different syllables. |
| HangulCodec.SyllableComponents | bage_utils/hangul_util.py:266-333 | For a syllable with offset o, the getters return `CHO_LIST[o / 588]`, `JUNG_LIST[(o / 28) % 21]` and `JONG_LIST[o % 28]`. `has_cho` and `has_jung` hold; `has_jong` holds iff o % 28 != 0. |
| HangulCodec.SplitJoinRoundTrip | bage_utils/hangul_util.py:266-303 | The getters' triple of a syllable joins back to that syllable. |
| HangulCodec.JoinSplitRoundTrip | bage_utils/hangul_util.py:266-303 | The getters recover the three components of any syllable `join_char` builds. |
| HangulCodec.BareJamo | bage_utils/hangul_util.py:266-303 | A lead gives itself from `get_cho` and `''` from the others. A vowel gives itself from `get_jung` and `''` from the others. A trail that is not a lead reaches `JONG_LIST[-1 % 28]`, which is ㅎ. |
| HangulCodec.GetJongFirstBranchDead | bage_utils/hangul_util.py:299-300 | Every trail has an empty vowel, so the first branch of `get_jong` can never be taken on a string. |
| HangulCodec.NonHangulGetters | bage_utils/hangul_util.py:266-303 | On a string that is neither a letter nor a syllable, the getters work with offset -1. `' '`, `'.'` and `','` raise IndexError in `get_cho` (the negative offset is their own, after `is_full_hangul` lets them in). On any other such string the getters give ㄱ, ㅣ and ㅎ (`int(-1 / 28 % 21)` is 20). `get_jung(' ')` gives ㅒ. |
| HangulCodec.HasLooksAtLastChar | bage_utils/hangul_util.py:305-333 | On a longer string, `has_cho` / `has_jung` / `has_jong` judge its last character. |
| HangulCodec.SplitChar | bage_utils/hangul_util.py:335-354 | `split_char` with the character handed to the getters, as its docstring describes. It raises IndexError exactly on `' '`, `'.'` and `','`. Otherwise it returns a lead or `''`, a vowel or `''`, and a trail entry. |
| HangulCodec.JoinSuffix | bage_utils/hangul_util.py:371-382 | Built on SplitChar. `' '`, `'.'` and `','` raise IndexError; the only other error is ValueError from `join_char`. A result is either the character followed by the suffix or one syllable. |
| HangulCodec.SplitCharAsWritten | bage_utils/hangul_util.py:335-354 | The shipped `split_char`, which hands the int offset to the getters (GetChoOfInt, GetJungOfInt, GetJongOfInt). SplitCharAsWrittenAlwaysFails states what it does. |
| HangulCodec.JoinSuffixAsWritten | bage_utils/hangul_util.py:371-382 | The shipped `join_suffix`, on the shipped `split_char`. JoinSuffixAsWrittenAlwaysFails states what it does. |
| HangulCodec.SplitCharShape | bage_utils/hangul_util.py:335-354 | `split_char`, taken as its docstring describes it, returns a syllable's lead, vowel and trail. |
| HangulCodec.JoinSuffixOnSyllable | bage_utils/hangul_util.py:371-382 | A syllable without a trail takes the suffix as its trail, or raises ValueError if the suffix is not a trail. A syllable with a trail is followed by the suffix. |
| HangulCodec.JoinSuffixTakesTrail | bage_utils/hangul_util.py:371-382 | A trail-less syllable with a trail suffix moves forward by the suffix's position in JONG_LIST. |
| HangulCodec.JoinSuffixAddsTrail | bage_utils/hangul_util.py:371-382 | A trail-less syllable plus trail t gives the syllable with trail t. |
| HangulCodec.JoinSuffixRejects | bage_utils/hangul_util.py:371-382 | A trail-less syllable plus a non-trail suffix raises ValueError. |
| HangulCodec.JoinSuffixAppends | bage_utils/hangul_util.py:371-382 | A syllable with a trail has the suffix appended as it is. |
| HangulCodec.SplitCharAsWrittenAlwaysFails | bage_utils/hangul_util.py:335-354 | The shipped `split_char` raises on every input: TypeError on a syllable, IndexError on `' '`. |
| HangulCodec.JoinSuffixAsWrittenAlwaysFails | bage_utils/hangul_util.py:371-382 | The shipped `join_suffix` raises on every input. |
| HangulCodec.SplitJoinExample | bage_utils/hangul_util.py:335-369 | '란' splits into ㄹ, ㅏ, ㄴ, and these join back to '란'. |
| HangulCodec.JoinCharExample | bage_utils/hangul_util.py:356-369 | ㄱ, ㅏ, ㄱ join to '각'. |
| HangulCodec.JoinSuffixAddsTrailExample | bage_utils/hangul_util.py:371-382 | '가' with suffix ㄴ gives '간'. |
| HangulCodec.JoinSuffixAppendsExample | bage_utils/hangul_util.py:371-382 | '간' with suffix ㄴ gives '간ㄴ'. |
| HangulCodec.GreetingSyllables | bage_utils/hangul_util.py:356-369 | The syllables of '안녕하세요' are joined from their letters (three of them without a trail argument). |
| HangulJoin.JoinString | bage_utils/hangul_util.py:398-431 | The loop builds exactly the pieces of the specification JoinPieces, concatenated. It always returns a string: the outer `except` cannot be reached. |
| HangulJoin.JoinStep | bage_utils/hangul_util.py:407-428 | Each iteration consumes one, two or three elements. |
| HangulJoin.JoinStepFacts | bage_utils/hangul_util.py:407-428 | A width-3 step is a successful `join_char` ending in a trail. A width-2 step is a successful `join_char` ending in a trail or vowel. A width-1 step emits the element itself. An element in neither JONG_LIST nor JUNG_LIST is emitted alone. The step is greedy: a successful three-element join is always taken, and a successful two-element join beats emitting one element. |
| HangulJoin.JoinPiecesCount | bage_utils/hangul_util.py:405-429 | The join emits at most as many pieces as there are elements. |
| HangulJoin.JoinPiecesPassThrough | bage_utils/hangul_util.py:405-429 | When no element is a trail or a vowel that can be joined, the pieces are the elements themselves. |
| HangulJoin.WrapAroundExample | bage_utils/hangul_util.py:410 | Negative indices wrap around: `['ㅏ', 'ㄱ']` joins to '각'. |
| HangulJoin.CharBlock | bage_utils/hangul_util.py:391-395 | A syllable's block is a lead, a vowel and a trail that join back to it. Any other character is itself. |
| HangulJoin.SplitString | bage_utils/hangul_util.py:384-396 | The loop computes Decompose, the word's blocks in order. |
| HangulJoin.Decompose | bage_utils/hangul_util.py:384-396 | The corrected `split_string` as a function: the blocks of the characters in order. DecomposeJoinRoundTrip states its round trip. |
| HangulJoin.DecomposeAsWritten | bage_utils/hangul_util.py:384-396 | The shipped `split_string`, on the shipped `split_char`. SplitStringAsWrittenFails states what it does. |
| HangulJoin.SplitStringAsWrittenFails | bage_utils/hangul_util.py:384-396 | The shipped `split_string` raises iff the word contains a syllable, `' '`, `'.'` or `','`. Otherwise it returns the characters one by one. |
| HangulJoin.DecomposeJoinRoundTrip | bage_utils/hangul_util.py:384-431 | Joining a word's blocks, followed by any tail, gives back the word's characters, provided no non-syllable character is a trail or vowel letter. |
| HangulJoin.SplitJoinStringRoundTrip | bage_utils/hangul_util.py:384-431 | `join_string(split_string(w)) == w` for every such word. |
| HangulJoin.RemapKeys | bage_utils/hangul_util.py:436-441 | One entry per character: its letter when it is a key, the character itself otherwise. |
| HangulJoin.QwertyToHangul | bage_utils/hangul_util.py:433-446 | The result is the join of the remapped keys, or the input word when that join is empty. |
| HangulJoin.RemapKeysNoKeys | bage_utils/hangul_util.py:436-441 | Characters that are not keys pass through unchanged. |
| HangulJoin.JoinLettersPassThrough | bage_utils/hangul_util.py:405-429 | One-character strings with no trail or vowel letter are joined to themselves. |
| HangulJoin.QwertyPassThrough | bage_utils/hangul_util.py:433-446 | A word with no key and no trail or vowel letter comes back unchanged, the empty word included. |
| HangulJoin.QwertyExample | bage_utils/hangul_util.py:433-446 | 'dkssudgktpdy' is remapped to ㅇㅏㄴㄴㅕㅇㅎㅏㅅㅔㅇㅛ, which joins to '안녕하세요'. |
| HangulJoin.GreetingJoin | bage_utils/hangul_util.py:405-429 | ㅇㅏㄴㄴㅕㅇㅎㅏㅅㅔㅇㅛ joins to the pieces 안, 녕, 하, 세, 요. |
| HangulText.GetExceptHangul | bage_utils/hangul_util.py:448-455 | The loop keeps exactly the characters that `is_hangul_char` rejects, in order. |
| HangulText.GetExceptEnglish | bage_utils/hangul_util.py:457-464 | The loop keeps exactly the characters that `is_english_char` rejects, in order. |
| HangulText.ExceptHangulLaws | bage_utils/hangul_util.py:448-455 | The result has no Hangul. A character is in it iff it is a non-syllable character of the input. The input is unchanged iff it had no Hangul. English is kept. |
| HangulText.ExceptEnglishLaws | bage_utils/hangul_util.py:457-464 | The symmetric statement for English letters. |
| HangulText.WithoutAppend | bage_utils/hangul_util.py:451-455 | Filtering distributes over concatenation, so the order is preserved. |
| HangulText.WithoutMembers | bage_utils/hangul_util.py:451-455 | Filtering keeps exactly the characters not dropped, and never lengthens the string. |
| HangulText.WithoutUnchanged | bage_utils/hangul_util.py:451-455 | Filtering leaves the string unchanged iff no character is dropped. |
| HangulText.WithoutIdempotent | bage_utils/hangul_util.py:451-455 | Filtering twice equals filtering once. |
| HangulText.Blank | bage_utils/hangul_util.py:23 | The substitution of `han_eng_re` replaces each character outside the kept class with one space, in place. |
| HangulText.SplitOn | bage_utils/hangul_util.py:64 | `str.split(' ')` gives at least one part and no part contains the separator. |
| HangulText.JoinSplit | bage_utils/hangul_util.py:64 | `' '.join(s.split(' ')) == s`. |
| HangulText.SplitJoin | bage_utils/hangul_util.py:64 | Splitting a join of separator-free parts gives the parts back. |
| HangulText.StripLaws | bage_utils/hangul_util.py:64 | `strip()` returns a slice of its input with only whitespace cut from either end. Neither end of the result is whitespace, and stripping is idempotent. |
| HangulText.StripLeftLaws | bage_utils/hangul_util.py:64 | The left strip is a suffix, cut only at whitespace, not starting with whitespace. |
| HangulText.StripRightLaws | bage_utils/hangul_util.py:64 | The right strip is a prefix, cut only at whitespace, not ending with whitespace. |
| HangulText.RemainHanEng | bage_utils/hangul_util.py:57-64 | `remain_han_eng` as the composition of the substitution, the split/join and `strip`. |
| HangulText.RemainHanEngIsStripBlank | bage_utils/hangul_util.py:57-64 | `remain_han_eng(s)` is `strip` of the substitution: the split/join does nothing, so interior runs of spaces stay. |
| HangulText.RemainHanEngLaws | bage_utils/hangul_util.py:57-64 | Every character of the result is in the kept class. The result is no longer than the input, and neither of its ends is whitespace. |
| HangulText.RemainHanEngKeeps | bage_utils/hangul_util.py:57-64 | A string of kept characters with no whitespace at its ends is returned unchanged. |
| ListUtil.RemoveEmpty | bage_utils/list_util.py:3-4 | `remove_emtpy`: the comprehension keeping the elements of non-zero length. |
| ListUtil.RemoveEmptyLaws | bage_utils/list_util.py:3-4 | Exactly the non-empty elements are kept and the concatenation is unchanged. The result is the input iff no element is empty, and the filter is idempotent. |
| ListUtil.RemoveEmptyAppend | bage_utils/list_util.py:3-4 | The filter distributes over concatenation, so the original order is kept. |
| ListUtil.Chunks | bage_utils/list_util.py:7-12 | Nothing is yielded for an empty list or a chunk size below 1. Otherwise the yielded chunks are ChunksOf(li, chunk_size). |
| ListUtil.ChunksOf | bage_utils/list_util.py:11-12 | The slices `li[i:i + size]` for i = 0, size, 2 * size, ... below the length. |
| ListUtil.ChunksOfLaws | bage_utils/list_util.py:11-12 | The chunks concatenate to the list and are empty only for the empty list. All but the last have exactly `size` elements; the last has 1..size. Their number is the ceiling of len / size. |
| ListUtil.ChunksOfAt | bage_utils/list_util.py:11-12 | Chunk k is `li[k * size : (k + 1) * size]`, the slice clamped at the end. |
| ListUtil.ChunksOfCount | bage_utils/list_util.py:11-12 | A list of c * size elements falls into exactly c chunks. |
| ListUtil.ChunksBySplit | bage_utils/list_util.py:14-35 | `max_split == 0` raises ZeroDivisionError. A list shorter than `max_split` gives `[li]`. Otherwise the result is the `max_split` parts of Parts. A negative `max_split` gives `[[]]` for the empty list and `[]` otherwise. |
| ListUtil.Parts | bage_utils/list_util.py:23-34 | `max_split` parts, part k being the k-th slice between consecutive split points. |
| ListUtil.PartsLaws | bage_utils/list_util.py:23-35 | The parts concatenate to the list. The first `max_split - len % max_split` have `len // max_split` elements and the rest one more. The sizes never decrease and differ by at most one, and every part is non-empty when len >= max_split. |
| ListUtil.PartSize | bage_utils/list_util.py:23-29 | Part k has `len // max_split` elements, plus one when k is among the last `len % max_split`. |
| ListUtil.PartsPrefix | bage_utils/list_util.py:32-35 | The first k parts concatenate to the prefix up to the k-th split point. |
| ListUtil.PartsByChunks | bage_utils/list_util.py:33-34 | The parts are what the two `chunks` calls produce: the short chunks of the prefix `li[:min_size * min_split]`, then the long chunks of the rest. |
| ListUtil.PartsArith | bage_utils/list_util.py:23-29 | When len >= max_split, `min_chunk_size >= 1` and `min_chunk_size * min_chunk_split + max_chunk_size * max_chunk_split == len`. |
| PyTypes.PyIndex | bage_utils/hangul_util.py:410 | `xs[k]` succeeds iff `-len <= k < len`, with a negative k counting from the end. Otherwise it raises IndexError. |
| PyTypes.TruncDiv | bage_utils/hangul_util.py:279 | `int(a / b)` rounds the quotient toward zero: for a >= 0, q >= 0 and `q * b <= a < q * b + b`; for a < 0, q <= 0 and `q * b - b < a <= q * b`. |
| PyTypes.FloorDiv | bage_utils/list_util.py:23 | `//` floors: it is the Euclidean quotient for a positive divisor, 0 for a zero dividend, and negative for a positive dividend over a negative divisor. |
| PyTypes.SliceBound | bage_utils/list_util.py:33-34 | A slice bound lands inside the list and equals k when 0 <= k <= len. |
| PyTypes.ConcatAppend | bage_utils/list_util.py:32-35 | Concatenating a list of pieces distributes over appending lists of pieces, as `extend` does. |
| PyTypes.ConcatLetters | bage_utils/hangul_util.py:429 | `''.join` of a string's one-character strings is the string. |

## Left out

- `html_tag_cleaner` and the `lxml` import are a foreign library that the modelled functions do not use.
- `warnings.filterwarnings`, the `traceback` printing in the bare `except` blocks, and non-string arguments of the predicates are left out. Over Dafny strings those `except` blocks are unreachable. The one that is reachable, when `ord` fails on a longer string in `is_*_char`, is modelled as `None`.
- The `__main__` demonstration blocks only print.
- `HANGUL_LIST`, `JA_RANGE`, `MO_RANGE` and `JONG_RANGE` are not used by any modelled function. `CHO_JUNG_JONG_LIST` is used: `join_char` zips it with its three arguments (line 367). It is modelled as the three separate lists that HangulCodec.JoinChar indexes.
- The first definition of `has_hangul` (lines 66-78) is replaced in the class by the identical second one; only that one is modelled.
- The regular expression engine is replaced by the explicit character class `HangulText.IsKept`.
- `HangulText.IsSpace` writes out the characters Python counts as whitespace, and serves for both `\s` and `str.strip`. It approximates Python's Unicode whitespace set and has not been compared with a Python build.
- The getters' `/` is a float division, modelled on exact rationals, which agree for the small operands that occur. In `get_cho`, `int(a / 588)` truncates toward zero (`PyTypes.TruncDiv`). In `get_jung`, the float `%` applies before `int`, and for integer offsets `int(a / 28 % 21)` equals the floored quotient modulo 21 (HangulCodec.JungAt).
- `int(chunk_size)` on a float chunk size is left out, because sizes are integers here.
- `ListUtil.Chunks` returns the generator's items as a list: laziness is not modelled.
- `chunks_by_split` is defined for every integer `max_split`: 0 raises ZeroDivisionError and a negative value follows Python's floor semantics. Nothing is assumed of the caller.
- `ListUtil.Times` is repeated addition, standing in for the products `min_chunk_size * min_chunk_split` and `i * chunk_size` in the proofs. `ListUtil.TimesIsMul` shows it equals the product.
- The alphabets are defined by code-point arithmetic, which is cheaper for the solver. `HangulTables.TablesAsWritten` proves they equal the source's literal strings.
- HangulJoin.RemapKeys: the dictionary lookup is modelled as the first position of the key in KEY_ENG_LIST. This agrees with the dictionary because the keys are distinct (HangulTables.KeyTableIsADict).
- HangulJoin.SplitString: this models `split_string` with `split_char` as its docstring describes it, and with only syllables decomposed. The shipped behaviour is HangulJoin.DecomposeAsWritten; see Findings.

## Findings

| source | as written | input that shows it | evidently intended | confidence | as-written member | corrected member |
|---|---|---|---|---|---|---|
| bage_utils/hangul_util.py:341-345 | `split_char` passes the int offset to the getters. `get_jong` then calls `has_jung`, which does `len()` on the int, so every call raises. | `split_char('란')` raises TypeError; `split_char(' ')` raises IndexError. | Return the getters' triple for the character, `('ㄹ', 'ㅏ', 'ㄴ')` for '란'. | not executed | HangulCodec.SplitCharAsWrittenAlwaysFails | HangulCodec.SplitJoinRoundTrip |
| bage_utils/hangul_util.py:378 | `join_suffix` starts with `split_char`, so it raises on every input. | `join_suffix('가', 'ㄴ')` raises. | '가' + ㄴ gives '간'; '간' + ㄴ gives '간ㄴ'. | not executed | HangulCodec.JoinSuffixAsWrittenAlwaysFails | HangulCodec.JoinSuffixOnSyllable |
| bage_utils/hangul_util.py:392-393 | `split_string` sends every character that `is_full_hangul` accepts to `split_char`. That means every syllable and also `' '`, `'.'` and `','`, so it raises on them. | `split_string('한글')` raises TypeError; `split_string('a b')` raises IndexError. | Decompose each syllable into lead, vowel and trail and keep other characters, so that `join_string` restores the word. | not executed | HangulJoin.SplitStringAsWrittenFails | HangulJoin.SplitJoinStringRoundTrip |
