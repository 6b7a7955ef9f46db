/** The keyword hash: the recursive compile-time form, the two-loop run-time form, and what a match
    between them says about the text. */
module Hash {
  import opened Types
  import opened Seqs

  /** Whether the platform's plain char is signed; it decides how a byte widens to an int. */
  datatype CharKind = Signed | Unsigned

  function Widen(c: bv8, kind: CharKind): bv32 {
    if kind == Signed && c & 0x80 != 0 then (c as bv32) | 0xFFFF_FF00 else c as bv32
  }

  function By33(h: bv32): bv32 {
    h * 33
  }

  /** The inverse of By33, modulo 2^32. */
  function Over33(h: bv32): bv32 {
    h * 0x3E0F_83E1
  }

  function Xor(x: bv32, y: bv32): bv32 {
    x ^ y
  }

  /** A byte over 0x7f is negative as a signed char, and widens to the byte less 256. */
  lemma WidenIs(c: bv8)
    ensures Widen(c, Unsigned) == c as bv32
    ensures Widen(c, Signed) == if c < 0x80 then c as bv32 else (c as bv32) - 0x100
  {
  }

  /** One folding step. */
  function Mix(h: bv32, c: bv8, kind: CharKind): bv32 {
    Xor(By33(h), Widen(c, kind))
  }

  /** str holds a NUL at or after index i. */
  ghost predicate TerminatedFrom(str: seq<bv8>, i: nat) {
    exists j :: i <= j < |str| && str[j] == 0
  }

  /** The recursive form, reading a NUL-terminated buffer from index i. */
  function StrHash(str: seq<bv8>, i: nat, kind: CharKind): bv32
    requires TerminatedFrom(str, i)
    decreases |str| - i
  {
    if str[i] == 0 then 5381 else Mix(StrHash(str, i + 1, kind), str[i], kind)
  }

  /** The characters of a buffer up to its first NUL. */
  function Text(str: seq<bv8>): seq<bv8> {
    if str == [] || str[0] == 0 then [] else [str[0]] + Text(str[1..])
  }

  /** The hash of a text as a fold from its last character to its first. */
  function HashOf(text: seq<bv8>, kind: CharKind): bv32 {
    if text == [] then 5381 else Mix(HashOf(text[1..], kind), text[0], kind)
  }

  lemma {:induction false} StrHashFolds(str: seq<bv8>, i: nat, kind: CharKind)
    requires TerminatedFrom(str, i)
    ensures StrHash(str, i, kind) == HashOf(Text(str[i..]), kind)
    decreases |str| - i
  {
    hide Mix;
    if str[i] != 0 {
      StrHashFolds(str, i + 1, kind);
      assert str[i..][1..] == str[i + 1..];
      assert Text(str[i..]) == [str[i]] + Text(str[i + 1..]);
    }
  }

  lemma {:induction false} TextStops(str: seq<bv8>, n: nat)
    requires n <= |str| && forall j :: 0 <= j < n ==> str[j] != 0
    ensures n <= |Text(str)| && Text(str)[..n] == str[..n]
    ensures n < |str| && str[n] == 0 ==> Text(str) == str[..n]
    ensures n == |str| ==> Text(str) == str
  {
    if n > 0 {
      TextStops(str[1..], n - 1);
      assert str[..n] == [str[0]] + str[1..][..n - 1];
    }
  }

  lemma HashOfNone(kind: CharKind)
    ensures HashOf([], kind) == 5381
  {
  }

  lemma {:induction false} TextOfTerminated(t: seq<bv8>)
    requires forall j :: 0 <= j < |t| ==> t[j] != 0
    ensures Text(t + [0]) == t
  {
    if t == [] {
      EmptyIsNeutral([0 as bv8]);
    } else {
      TailOfConcat(t, [0]);
      TextOfTerminated(t[1..]);
      HeadAndTail(t);
    }
  }

  /** The recursive form on a text with its NUL put back folds the text. */
  lemma FormsAgree(t: seq<bv8>, kind: CharKind)
    requires forall j :: 0 <= j < |t| ==> t[j] != 0
    ensures TerminatedFrom(t + [0], 0)
    ensures StrHash(t + [0], 0, kind) == HashOf(t, kind)
  {
    assert (t + [0])[|t|] == 0;
    StrHashFolds(t + [0], 0, kind);
    TextOfTerminated(t);
    assert (t + [0])[0..] == t + [0];
  }

  /** The run-time form: find the end, at most maxLen characters on, then fold backwards. It equals the
      recursive form of the text cut to maxLen characters. */
  method StrHashVol(str: seq<bv8>, maxLen: nat, kind: CharKind) returns (res: bv32)
    requires TerminatedFrom(str, 0) || maxLen <= |str|
    ensures var t := FirstN(Text(str), maxLen);
            && TerminatedFrom(t + [0], 0)
            && res == StrHash(t + [0], 0, kind) == HashOf(t, kind)
  {
    hide Mix, StrHash, HashOf, Text;
    res := 5381;
    var i := 0;
    while i < maxLen
      invariant i <= maxLen && i <= |str|
      invariant forall j :: 0 <= j < i ==> str[j] != 0
    {
      if str[i] == 0 { break; }
      i := i + 1;
    }
    ghost var n := i;
    TextStops(str, n);
    assert FirstN(Text(str), maxLen) == str[..n];
    FormsAgree(str[..n], kind);
    HashOfNone(kind);
    assert str[n..n] == [];
    while i != 0
      invariant 0 <= i <= n
      invariant res == HashOf(str[i..n], kind)
    {
      i := i - 1;
      SliceHead(str, i, n);
      HashCons(str[i], str[i + 1..n], kind);
      res := Mix(res, str[i], kind);
    }
  }

  /** 33 is invertible modulo 2^32, so a folding step loses nothing of either input. */
  lemma MixIsInjective(x: bv32, y: bv32, a: bv8, b: bv8, kind: CharKind)
    ensures Mix(x, a, kind) == Mix(y, a, kind) <==> x == y
    ensures Mix(x, a, kind) == Mix(x, b, kind) <==> a == b
  {
    hide Widen, By33, Over33, Xor;
    InverseOf33(x);
    InverseOf33(y);
    WidenIsInjective(a, b, kind);
    XorCancels(By33(x), By33(y), Widen(a, kind));
    XorCancels(Widen(a, kind), Widen(b, kind), By33(x));
  }

  lemma InverseOf33(x: bv32)
    ensures Over33(By33(x)) == x && By33(Over33(x)) == x
  {
    hide By33, Over33;
    FactorsCancel(x);
    FactorsAre(x);
  }

  lemma FactorsAre(x: bv32)
    ensures By33(x) == x * 33 && Over33(x) == x * 0x3E0F_83E1
  {
  }

  lemma FactorsCancel(x: bv32)
    ensures Over33(x * 33) == x && By33(x * 0x3E0F_83E1) == x
  {
  }

  lemma XorTwice(x: bv32, c: bv32)
    ensures Xor(Xor(x, c), c) == x
  {
  }

  lemma XorCommutes(x: bv32, y: bv32)
    ensures Xor(x, y) == Xor(y, x)
  {
  }

  lemma XorCancels(x: bv32, y: bv32, c: bv32)
    ensures Xor(x, c) == Xor(y, c) <==> x == y
    ensures Xor(c, x) == Xor(c, y) <==> x == y
  {
    hide Xor;
    XorTwice(x, c);
    XorTwice(y, c);
    XorCommutes(x, c);
    XorCommutes(y, c);
  }

  lemma WidenIsInjective(a: bv8, b: bv8, kind: CharKind)
    ensures Widen(a, kind) == Widen(b, kind) <==> a == b
  {
  }

  /** A common prefix cancels: two texts with it collide exactly when the rests do. */
  lemma {:induction false} PrefixCancels(p: seq<bv8>, s: seq<bv8>, t: seq<bv8>, kind: CharKind)
    ensures HashOf(p + s, kind) == HashOf(p + t, kind) <==> HashOf(s, kind) == HashOf(t, kind)
    decreases |p|
  {
    hide Mix;
    if p == [] {
      EmptyIsNeutral(s);
      EmptyIsNeutral(t);
    } else {
      TailOfConcat(p, s);
      TailOfConcat(p, t);
      PrefixCancels(p[1..], s, t, kind);
      MixIsInjective(HashOf(p[1..] + s, kind), HashOf(p[1..] + t, kind), p[0], p[0], kind);
    }
  }

  lemma HashCons(c: bv8, s: seq<bv8>, kind: CharKind)
    ensures HashOf([c] + s, kind) == Mix(HashOf(s, kind), c, kind)
  {
    hide Mix;
    TailOfConcat([c], s);
    EmptyIsNeutral(s);
  }

  /** Changing exactly one character, anywhere, always changes the hash. */
  lemma OneCharacterMatters(p: seq<bv8>, a: bv8, b: bv8, s: seq<bv8>, kind: CharKind)
    requires a != b
    ensures HashOf(p + ([a] + s), kind) != HashOf(p + ([b] + s), kind)
  {
    hide Mix;
    PrefixCancels(p, [a] + s, [b] + s, kind);
    HashCons(a, s, kind);
    HashCons(b, s, kind);
    MixIsInjective(HashOf(s, kind), HashOf(s, kind), a, b, kind);
  }

  /** Takes one character off the front of a text, as its hash sees it. */
  function Unmix(h: bv32, c: bv8, kind: CharKind): bv32 {
    Over33(Xor(h, Widen(c, kind)))
  }

  /** Takes a whole text off the front. */
  function Peel(h: bv32, text: seq<bv8>, kind: CharKind): bv32
    decreases |text|
  {
    if text == [] then h else Peel(Unmix(h, text[0], kind), text[1..], kind)
  }

  lemma UnmixInvertsMix(x: bv32, c: bv8, h: bv32, kind: CharKind)
    ensures Mix(x, c, kind) == h <==> x == Unmix(h, c, kind)
  {
    hide Widen, By33, Over33, Xor;
    InverseOf33(x);
    InverseOf33(Xor(h, Widen(c, kind)));
    XorMoves(By33(x), h, Widen(c, kind));
  }

  lemma XorMoves(x: bv32, h: bv32, w: bv32)
    ensures Xor(x, w) == h <==> x == Xor(h, w)
  {
    hide Xor;
    XorTwice(x, w);
    XorTwice(h, w);
  }

  /** Which texts have a given hash: p + s exactly when s has the hash that p peels it down to. */
  lemma {:induction false} PeelIsExact(p: seq<bv8>, s: seq<bv8>, h: bv32, kind: CharKind)
    ensures HashOf(p + s, kind) == h <==> HashOf(s, kind) == Peel(h, p, kind)
    decreases |p|
  {
    hide Mix, Unmix;
    if p == [] {
      EmptyIsNeutral(s);
    } else {
      TailOfConcat(p, s);
      PeelIsExact(p[1..], s, Unmix(h, p[0], kind), kind);
      UnmixInvertsMix(HashOf(p[1..] + s, kind), p[0], h, kind);
    }
  }

  // ---------- the switch on "base" ----------

  datatype Keyword = Last | First | Id | Date | Counter

  const LAST_TEXT: seq<bv8> := [108, 97, 115, 116]
  const FIRST_TEXT: seq<bv8> := [102, 105, 114, 115, 116]
  const ID_TEXT: seq<bv8> := [105, 100]
  const DATE_TEXT: seq<bv8> := [100, 97, 116, 101]
  const COUNTER_TEXT: seq<bv8> := [99, 111, 117, 110, 116, 101, 114]

  /** The bytes of t are the characters of s. */
  predicate Spells(t: seq<bv8>, s: string) {
    |t| == |s| && forall i :: 0 <= i < |t| ==> t[i] as int == s[i] as int
  }

  lemma KeywordTexts()
    ensures Spells(TextOf(Last), "last") && Spells(TextOf(First), "first") && Spells(TextOf(Id), "id")
    ensures Spells(TextOf(Date), "date") && Spells(TextOf(Counter), "counter")
  {
  }

  function TextOf(k: Keyword): seq<bv8> {
    match k
    case Last => LAST_TEXT
    case First => FIRST_TEXT
    case Id => ID_TEXT
    case Date => DATE_TEXT
    case Counter => COUNTER_TEXT
  }

  /** The case label the switch takes for a hash value, if any. */
  function CaseOf(h: bv32, kind: CharKind): Option<Keyword> {
    if h == HashOf(TextOf(Last), kind) then Some(Last)
    else if h == HashOf(TextOf(First), kind) then Some(First)
    else if h == HashOf(TextOf(Id), kind) then Some(Id)
    else if h == HashOf(TextOf(Date), kind) then Some(Date)
    else if h == HashOf(TextOf(Counter), kind) then Some(Counter)
    else None
  }

  /** The characters of a text that are hashed: a C string ends at its first NUL, and 256 are enough. */
  function Hashed(text: seq<bv8>): seq<bv8> {
    FirstN(Text(text + [0]), 256)
  }

  /** The case the switch takes on the "base" text. */
  function CaseTaken(text: seq<bv8>, kind: CharKind): Option<Keyword> {
    CaseOf(HashOf(Hashed(text), kind), kind)
  }

  lemma HashStep(c: bv8, s: seq<bv8>, kind: CharKind, h: bv32, h': bv32)
    requires c < 0x80 && HashOf(s, kind) == h && Xor(By33(h), c as bv32) == h'
    ensures HashOf([c] + s, kind) == h'
  {
    hide By33, Xor, HashOf, Widen;
    HashCons(c, s, kind);
    AsciiWidens(c, kind);
  }

  lemma AsciiWidens(c: bv8, kind: CharKind)
    requires c < 0x80
    ensures Widen(c, kind) == c as bv32
  {
  }

  lemma SuffixStep(t: seq<bv8>, i: nat, kind: CharKind, h: bv32, h': bv32)
    requires i < |t| && t[i] < 0x80 && HashOf(t[i + 1..], kind) == h && Xor(By33(h), t[i] as bv32) == h'
    ensures HashOf(t[i..], kind) == h'
  {
    hide By33, Xor, HashOf;
    SliceHead(t, i, |t|);
    assert t[i..|t|] == t[i..] && t[i + 1..|t|] == t[i + 1..];
    HashStep(t[i], t[i + 1..], kind, h, h');
  }

  lemma HashOfEnd(t: seq<bv8>, kind: CharKind)
    ensures HashOf(t[|t|..], kind) == 5381 && t[0..] == t
  {
  }

  lemma HashOfLast(kind: CharKind)
    ensures HashOf(LAST_TEXT, kind) == 0x7c73546f
    ensures forall i :: 0 <= i < 4 ==> HashOf(LAST_TEXT[i..], kind) != 5381
  {
    hide HashOf;
    var t := LAST_TEXT;
    HashOfEnd(t, kind);
    SuffixStep(t, 3, kind, 5381, 0x2b5d1);
    SuffixStep(t, 2, kind, 0x2b5d1, 0x596f82);
    SuffixStep(t, 1, kind, 0x596f82, 0xb875fa3);
    SuffixStep(t, 0, kind, 0xb875fa3, 0x7c73546f);
  }

  lemma HashOfFirst(kind: CharKind)
    ensures HashOf(FIRST_TEXT, kind) == 0xade109f
    ensures forall i :: 0 <= i < 5 ==> HashOf(FIRST_TEXT[i..], kind) != 5381
  {
    hide HashOf;
    var t := FIRST_TEXT;
    HashOfEnd(t, kind);
    SuffixStep(t, 4, kind, 5381, 0x2b5d1);
    SuffixStep(t, 3, kind, 0x2b5d1, 0x596f82);
    SuffixStep(t, 2, kind, 0x596f82, 0xb875fb0);
    SuffixStep(t, 1, kind, 0xb875fb0, 0x7c7355d9);
    SuffixStep(t, 0, kind, 0x7c7355d9, 0xade109f);
  }

  lemma HashOfId(kind: CharKind)
    ensures HashOf(ID_TEXT, kind) == 0x596d88
    ensures forall i :: 0 <= i < 2 ==> HashOf(ID_TEXT[i..], kind) != 5381
  {
    hide HashOf;
    var t := ID_TEXT;
    HashOfEnd(t, kind);
    SuffixStep(t, 1, kind, 5381, 0x2b5c1);
    SuffixStep(t, 0, kind, 0x2b5c1, 0x596d88);
  }

  lemma HashOfDate(kind: CharKind)
    ensures HashOf(DATE_TEXT, kind) == 0x7c6bae91
    ensures forall i :: 0 <= i < 4 ==> HashOf(DATE_TEXT[i..], kind) != 5381
  {
    hide HashOf;
    var t := DATE_TEXT;
    HashOfEnd(t, kind);
    SuffixStep(t, 3, kind, 5381, 0x2b5c0);
    SuffixStep(t, 2, kind, 0x2b5c0, 0x596db4);
    SuffixStep(t, 1, kind, 0x596db4, 0xb872455);
    SuffixStep(t, 0, kind, 0xb872455, 0x7c6bae91);
  }

  lemma HashOfCounter(kind: CharKind)
    ensures HashOf(COUNTER_TEXT, kind) == 0x519d3e91
    ensures forall i :: 0 <= i < 7 ==> HashOf(COUNTER_TEXT[i..], kind) != 5381
  {
    hide HashOf;
    var t := COUNTER_TEXT;
    HashOfEnd(t, kind);
    SuffixStep(t, 6, kind, 5381, 0x2b5d7);
    SuffixStep(t, 5, kind, 0x2b5d7, 0x5970d2);
    SuffixStep(t, 4, kind, 0x5970d2, 0xb878b66);
    SuffixStep(t, 3, kind, 0xb878b66, 0x7c78f848);
    SuffixStep(t, 2, kind, 0x7c78f848, 0xb98013d);
    SuffixStep(t, 1, kind, 0xb98013d, 0x7e9828b2);
    SuffixStep(t, 0, kind, 0x7e9828b2, 0x519d3e91);
  }

  lemma HashOfHe(kind: CharKind)
    ensures HashOf([72, 101], kind) == 0x596d88
  {
    HashStep(101, [], kind, 5381, 0x2b5c0);
    HashStep(72, [101], kind, 0x2b5c0, 0x596d88);
  }

  /** The values of the case labels. */
  function LabelOf(k: Keyword): bv32 {
    match k
    case Last => 0x7c73546f
    case First => 0xade109f
    case Id => 0x596d88
    case Date => 0x7c6bae91
    case Counter => 0x519d3e91
  }

  /** What a keyword hashes to, and that no part of one hashes as nothing does. */
  lemma KeywordHash(k: Keyword, kind: CharKind)
    ensures HashOf(TextOf(k), kind) == LabelOf(k)
    ensures forall i :: 0 <= i < |TextOf(k)| ==> HashOf(TextOf(k)[i..], kind) != 5381
  {
    hide HashOf;
    match k
    case Last => HashOfLast(kind);
    case First => HashOfFirst(kind);
    case Id => HashOfId(kind);
    case Date => HashOfDate(kind);
    case Counter => HashOfCounter(kind);
  }

  lemma CaseOfLabel(h: bv32, k: Keyword, kind: CharKind)
    ensures CaseOf(h, kind) == Some(k) <==> h == LabelOf(k)
  {
    hide HashOf, TextOf;
    KeywordHash(Last, kind);
    KeywordHash(First, kind);
    KeywordHash(Id, kind);
    KeywordHash(Date, kind);
    KeywordHash(Counter, kind);
  }

  /** Which texts are taken for a keyword: exactly those that hash to its label, that is, those whose
      characters peel off the label down to the hash of nothing. */
  lemma TakenExactly(text: seq<bv8>, k: Keyword, kind: CharKind)
    ensures CaseTaken(text, kind) == Some(k) <==> HashOf(Hashed(text), kind) == LabelOf(k)
    ensures CaseTaken(text, kind) == Some(k) <==> Peel(LabelOf(k), Hashed(text), kind) == 5381
  {
    hide HashOf, Peel, CaseOf, LabelOf, Hashed;
    CaseOfLabel(HashOf(Hashed(text), kind), k, kind);
    PeelIsExact(Hashed(text), [], LabelOf(k), kind);
    EmptyIsNeutral(Hashed(text));
    HashOfNone(kind);
  }

  /** Exactly the characters before the first NUL count, and of those the first 256. */
  lemma HashedIs(text: seq<bv8>, n: nat)
    requires n <= |text| && forall j :: 0 <= j < n ==> text[j] != 0
    ensures (n < |text| && text[n] == 0) || n == |text| ==> Hashed(text) == text[..if n < 256 then n else 256]
  {
    TextStops(text + [0], n);
    assert (text + [0])[..n] == text[..n];
  }

  /** A short text is hashed up to its first NUL, or whole. */
  lemma HashedShort(text: seq<bv8>, n: nat)
    requires n <= |text| <= 256 && forall j :: 0 <= j < n ==> text[j] != 0
    requires n < |text| ==> text[n] == 0
    ensures Hashed(text) == text[..n]
  {
    TextStops(text + [0], n);
    assert (text + [0])[..n] == text[..n];
  }

  lemma KeywordsAreShort(k: Keyword)
    ensures 2 <= |TextOf(k)| <= 7 && forall j :: 0 <= j < |TextOf(k)| ==> TextOf(k)[j] != 0
  {
  }

  /** Each keyword dispatches to its own case. */
  lemma KeywordsDispatch(k: Keyword, kind: CharKind)
    ensures CaseTaken(TextOf(k), kind) == Some(k)
  {
    var t := TextOf(k);
    KeywordsAreShort(k);
    hide HashOf, Peel, Hashed, TextOf, LabelOf;
    KeywordHash(k, kind);
    HashedShort(t, |t|);
    assert t[..|t|] == t;
    TakenExactly(t, k, kind);
  }

  /** A keyword with exactly one character changed, even to a NUL that cuts it, never dispatches as that
      keyword. */
  lemma MistypedKeywordIsNotTaken(k: Keyword, i: nat, c: bv8, kind: CharKind)
    requires i < |TextOf(k)| && c != TextOf(k)[i]
    ensures CaseTaken(TextOf(k)[i := c], kind) != Some(k)
  {
    var t, t' := TextOf(k), TextOf(k)[i := c];
    KeywordsAreShort(k);
    hide HashOf, Peel, Hashed, TextOf, LabelOf, CaseTaken;
    KeywordHash(k, kind);
    TakenExactly(t', k, kind);
    ChangedTextDiffers(t, i, c, kind);
  }

  lemma ChangedTextDiffers(t: seq<bv8>, i: nat, c: bv8, kind: CharKind)
    requires i < |t| <= 256 && c != t[i] && forall j :: 0 <= j < |t| ==> t[j] != 0
    requires HashOf(t[i..], kind) != 5381
    ensures HashOf(Hashed(t[i := c]), kind) != HashOf(t, kind)
  {
    hide HashOf, Hashed;
    if c == 0 {
      HashedShort(t[i := c], i);
      assert t[i := c][..i] == t[..i];
      CutTextDiffers(t, i, kind);
    } else {
      HashedShort(t[i := c], |t|);
      assert t[i := c][..|t|] == t[i := c];
      UpdateSplits(t, i, c);
      OneCharacterMatters(t[..i], t[i], c, t[i + 1..], kind);
    }
  }

  /** A text cut short hashes differently, unless what was cut hashes as nothing does. */
  lemma CutTextDiffers(t: seq<bv8>, i: nat, kind: CharKind)
    requires i <= |t|
    ensures HashOf(t[..i], kind) == HashOf(t, kind) <==> HashOf(t[i..], kind) == 5381
  {
    SplitsAt(t, i);
    EmptyIsNeutral(t[..i]);
    PrefixCancels(t[..i], [], t[i..], kind);
  }

  /** But the switch never compares the text itself: "He" is taken for "id". */
  lemma AnotherTextIsTaken(kind: CharKind)
    ensures [72, 101] != TextOf(Id) && CaseTaken([72, 101], kind) == Some(Id)
  {
    hide HashOf, Peel, Hashed;
    HashOfHe(kind);
    HashedShort([72, 101], 2);
    assert [72 as bv8, 101][..2] == [72, 101];
    TakenExactly([72, 101], Id, kind);
  }
}
