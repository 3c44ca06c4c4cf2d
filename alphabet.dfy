/** Alphabets and the `BasekEncoding` class (lib/main.ts:22-135): the
 *  94-character default alphabet, the constructor's checks, and the two
 *  lookup tables it fills. */
module Alphabet {
  import opened Common

  // `ALPHABET_94` (lib/main.ts:22-26), built from the same four pieces.
  const DecimalDigits: string := "0123456789"
  const UpperLetters: string := "ABCDEFGHIJKLMNOPQRSTUVWXYZ"
  const LowerLetters: string := "abcdefghijklmnopqrstuvwxyz"
  const Punctuation: string := "-_|~^>.!()*+,;=@:[]{}'$#?/%<&\"\\`"
  const ALPHABET_94: string := DecimalDigits + UpperLetters + LowerLetters + Punctuation

  /** The characters JavaScript's `/\s/u` matches. */
  predicate IsWhitespace(c: char)
  {
    var x := c as int;
    (9 <= x <= 13) || x == 0x20 || x == 0xA0 || x == 0x1680 || (0x2000 <= x <= 0x200A)
    || x == 0x2028 || x == 0x2029 || x == 0x202F || x == 0x205F || x == 0x3000 || x == 0xFEFF
  }

  /** Why the constructor throws: the index of the offending character, or
   *  an alphabet that is too short. */
  datatype AlphabetError =
    | Whitespace(index: nat)
    | NonAscii(index: nat)
    | Repeated(index: nat)
    | TooShort

  /** The three checks on character i, in the constructor's order
   *  (lib/main.ts:63-78). */
  function CharError(alphabet: string, i: nat): Option<AlphabetError>
    requires i < |alphabet|
  {
    if IsWhitespace(alphabet[i]) then Some(Whitespace(i))
    else if alphabet[i] as int > 127 then Some(NonAscii(i))
    else if alphabet[i] in alphabet[..i] then Some(Repeated(i))
    else None
  }

  /** What an alphabet must satisfy, stated without the scan: at least two
   *  characters, none of them whitespace or beyond ASCII, no two equal. */
  predicate ValidAlphabet(alphabet: string)
  {
    |alphabet| >= 2
    && (forall i | 0 <= i < |alphabet| :: !IsWhitespace(alphabet[i]) && alphabet[i] as int <= 127)
    && (forall i, j | 0 <= i < j < |alphabet| :: alphabet[i] != alphabet[j])
  }

  /** The verdict of the constructor's scan from index i on
   *  (lib/main.ts:62-85): the first character that fails a check, else
   *  `TooShort` if there are fewer than two characters. */
  function CheckFrom(alphabet: string, i: nat): (e: Option<AlphabetError>)
    requires i <= |alphabet|
    ensures e.None? ==> |alphabet| >= 2 && forall j | i <= j < |alphabet| :: CharError(alphabet, j).None?
    ensures e == Some(TooShort) ==> |alphabet| < 2 && forall j | i <= j < |alphabet| :: CharError(alphabet, j).None?
    ensures e.Some? && e.value != TooShort ==>
      i <= e.value.index < |alphabet| && CharError(alphabet, e.value.index) == e
      && forall j | i <= j < e.value.index :: CharError(alphabet, j).None?
    decreases |alphabet| - i
  {
    if i == |alphabet| then
      if |alphabet| < 2 then Some(TooShort) else None
    else if CharError(alphabet, i).Some? then
      CharError(alphabet, i)
    else
      CheckFrom(alphabet, i + 1)
  }

  /** `None` when `new BasekEncoding(alphabet)` succeeds, otherwise why it
   *  throws. */
  function Check(alphabet: string): Option<AlphabetError>
  {
    CheckFrom(alphabet, 0)
  }

  /** The constructor accepts exactly the valid alphabets. */
  lemma CheckAccepts(alphabet: string)
    ensures Check(alphabet).None? <==> ValidAlphabet(alphabet)
  {
    if Check(alphabet).None? {
      forall i | 0 <= i < |alphabet|
        ensures !IsWhitespace(alphabet[i]) && alphabet[i] as int <= 127
      {
        assert CharError(alphabet, i).None?;
      }
      forall i, j | 0 <= i < j < |alphabet|
        ensures alphabet[i] != alphabet[j]
      {
        assert CharError(alphabet, j).None?;
        assert alphabet[i] == alphabet[..j][i];
      }
    }
  }

  /** lib/main.ts examples: a space, a repeat, and too few characters. */
  lemma RejectedAlphabets()
    ensures Check("a b") == Some(Whitespace(1))
    ensures Check("aa") == Some(Repeated(1))
    ensures Check("a\U{E9}") == Some(NonAscii(1))
    ensures Check("") == Some(TooShort) && Check("a") == Some(TooShort)
  {
    assert "aa"[..1] == "a";
    assert CharError("a b", 0).None? by { assert "a b"[..0] == []; }
    assert CharError("aa", 0).None? by { assert "aa"[..0] == []; }
    assert CharError("a\U{E9}", 0).None? by { assert "a\U{E9}"[..0] == []; }
    assert CharError("a", 0).None? by { assert "a"[..0] == []; }
  }

  /** The position of c in `ALPHABET_94`, or -1. */
  function Ordinal94(c: char): (o: int)
    ensures o >= 0 ==> 33 <= c as int <= 126
  {
    if '0' <= c <= '9' then c as int - '0' as int
    else if 'A' <= c <= 'Z' then c as int - 'A' as int + 10
    else if 'a' <= c <= 'z' then c as int - 'a' as int + 36
    else match c
      case '-' => 62 case '_' => 63 case '|' => 64 case '~' => 65
      case '^' => 66 case '>' => 67 case '.' => 68 case '!' => 69
      case '(' => 70 case ')' => 71 case '*' => 72 case '+' => 73
      case ',' => 74 case ';' => 75 case '=' => 76 case '@' => 77
      case ':' => 78 case '[' => 79 case ']' => 80 case '{' => 81
      case '}' => 82 case '\'' => 83 case '$' => 84 case '#' => 85
      case '?' => 86 case '/' => 87 case '%' => 88 case '<' => 89
      case '&' => 90 case '"' => 91 case '\\' => 92 case '`' => 93
      case _ => -1
  }

  lemma DecimalOrdinals()
    ensures |DecimalDigits| == 10 && forall i | 0 <= i < 10 :: Ordinal94(DecimalDigits[i]) == i
  {}

  lemma UpperOrdinals()
    ensures |UpperLetters| == 26 && forall i | 0 <= i < 26 :: Ordinal94(UpperLetters[i]) == i + 10
  {}

  lemma LowerOrdinals()
    ensures |LowerLetters| == 26 && forall i | 0 <= i < 26 :: Ordinal94(LowerLetters[i]) == i + 36
  {}

  lemma PunctuationOrdinalsLow()
    ensures |Punctuation| == 32 && forall i | 0 <= i < 16 :: Ordinal94(Punctuation[i]) == i + 62
  {}

  lemma PunctuationOrdinalsHigh()
    ensures |Punctuation| == 32 && forall i | 16 <= i < 32 :: Ordinal94(Punctuation[i]) == i + 62
  {}

  /** Ordinal94 inverts indexing into `ALPHABET_94`. */
  lemma Ordinals94()
    ensures |ALPHABET_94| == 94
    ensures forall i | 0 <= i < 94 :: Ordinal94(ALPHABET_94[i]) == i
  {
    DecimalOrdinals();
    UpperOrdinals();
    LowerOrdinals();
    PunctuationOrdinalsLow();
    PunctuationOrdinalsHigh();
    forall i | 0 <= i < 94
      ensures Ordinal94(ALPHABET_94[i]) == i
    {
      if i < 10 {
        assert ALPHABET_94[i] == DecimalDigits[i];
      } else if i < 36 {
        assert ALPHABET_94[i] == UpperLetters[i - 10];
      } else if i < 62 {
        assert ALPHABET_94[i] == LowerLetters[i - 36];
      } else {
        assert ALPHABET_94[i] == Punctuation[i - 62];
      }
    }
  }

  /** Every prefix of `ALPHABET_94` with 2 to 94 characters is a valid
   *  alphabet: 94 distinct printable characters, none of them a space. */
  lemma PrefixesOf94Accepted(n: nat)
    requires 2 <= n <= 94
    ensures ValidAlphabet(ALPHABET_94[..n]) && Check(ALPHABET_94[..n]).None?
  {
    Ordinals94();
    var a := ALPHABET_94[..n];
    forall i | 0 <= i < n
      ensures !IsWhitespace(a[i]) && a[i] as int <= 127
    {
      assert Ordinal94(a[i]) == i;
    }
    forall i, j | 0 <= i < j < n
      ensures a[i] != a[j]
    {
      assert Ordinal94(a[i]) == i && Ordinal94(a[j]) == j;
    }
    CheckAccepts(a);
  }

  /** The digit of the character with code c: its index in the alphabet, or
   *  255 if there is none (the last occurrence, which for a valid alphabet
   *  is the only one). */
  function DigitOf(alphabet: string, c: int): (d: int)
    requires |alphabet| <= 255
    ensures d == 255 <==> forall i | 0 <= i < |alphabet| :: alphabet[i] as int != c
    ensures d != 255 ==> 0 <= d < |alphabet| && alphabet[d] as int == c
  {
    if alphabet == [] then 255
    else if alphabet[|alphabet| - 1] as int == c then |alphabet| - 1
    else DigitOf(alphabet[..|alphabet| - 1], c)
  }

  /** The character codes of a string. */
  function Codes(s: string): (r: seq<int>)
    ensures |r| == |s| && forall i | 0 <= i < |s| :: r[i] == s[i] as int
  {
    seq(|s|, i requires 0 <= i < |s| => s[i] as int)
  }

  function Elements(s: seq<int>): set<int>
  {
    set x | x in s
  }

  /** The integers 0 .. n - 1. */
  function Below(n: nat): (r: set<int>)
    ensures |r| == n
    ensures forall x :: x in r <==> 0 <= x < n
  {
    if n == 0 then {} else Below(n - 1) + {n - 1}
  }

  lemma {:induction false} DistinctCard(s: seq<int>)
    requires forall i, j | 0 <= i < j < |s| :: s[i] != s[j]
    ensures |Elements(s)| == |s|
  {
    if s != [] {
      var s' := s[..|s| - 1];
      DistinctCard(s');
      assert Elements(s) == Elements(s') + {s[|s| - 1]};
    }
  }

  lemma SubsetCard(a: set<int>, b: set<int>)
    requires a <= b
    ensures |a| <= |b|
  {
    assert b == a + (b - a);
  }

  /** A valid alphabet has at most 128 characters (they are distinct ASCII
   *  characters), so its length is a base the place-value table covers. */
  lemma AlphabetSize(alphabet: string)
    requires ValidAlphabet(alphabet)
    ensures 2 <= |alphabet| <= 128
  {
    var cs := Codes(alphabet);
    DistinctCard(cs);
    SubsetCard(Elements(cs), Below(128));
  }

  /** `BasekEncoding`: the alphabet and the two lookup tables. The source's
   *  getters `charToDigitMap`, `digitToCharMap` and `alphabet`
   *  (lib/main.ts:109-126) read these fields. */
  class BasekEncoding {
    const charToDigitMap: array<byte>
    const digitToCharMap: array<byte>
    const alphabet: string

    /** What the constructor establishes: `charToDigit` has 256 entries, the
     *  digit of each alphabet character and 255 everywhere else;
     *  `digitToChar` holds the code of each digit's character. */
    ghost predicate Valid()
      reads this, charToDigitMap, digitToCharMap
    {
      ValidAlphabet(alphabet)
      && |alphabet| <= 128
      && charToDigitMap.Length == 256 && digitToCharMap.Length == |alphabet|
      && (forall d | 0 <= d < |alphabet| :: digitToCharMap[d] as int == alphabet[d] as int)
      && (forall c | 0 <= c < 256 :: charToDigitMap[c] as int == DigitOf(alphabet, c))
    }

    /** `get base()` (lib/main.ts:132-134): the alphabet length, between 2
     *  and 128 for a constructed encoding. */
    function Base(): (b: int)
      reads this
      ensures b == |alphabet|
    {
      |alphabet|
    }

    /** lib/main.ts:87-101, after the checks have passed. */
    constructor (alphabet: string)
      requires ValidAlphabet(alphabet)
      ensures Valid() && this.alphabet == alphabet
      ensures fresh(charToDigitMap) && fresh(digitToCharMap)
    {
      AlphabetSize(alphabet);
      var charToDigit := new byte[256];
      var digitToChar := new byte[|alphabet|];
      var i := 0;
      while i < charToDigit.Length
        invariant 0 <= i <= 256
        invariant forall c | 0 <= c < i :: charToDigit[c] == 255
      {
        charToDigit[i] := 255;
        i := i + 1;
      }
      i := 0;
      while i < |alphabet|
        invariant 0 <= i <= |alphabet|
        invariant forall d | 0 <= d < i :: digitToChar[d] as int == alphabet[d] as int
        invariant forall c | 0 <= c < 256 :: charToDigit[c] as int == DigitOf(alphabet[..i], c)
      {
        var code := alphabet[i] as int;
        assert alphabet[..i + 1][..i] == alphabet[..i];
        digitToChar[i] := code as byte;
        charToDigit[code] := i as byte;
        i := i + 1;
      }
      assert alphabet[..i] == alphabet;
      this.charToDigitMap := charToDigit;
      this.digitToCharMap := digitToChar;
      this.alphabet := alphabet;
    }

    /** Looking up a digit's character and then that character's digit gives
     *  the digit back. */
    lemma DigitsInvert()
      requires Valid()
      ensures forall d | 0 <= d < Base() :: charToDigitMap[digitToCharMap[d] as int] as int == d
    {
      forall d | 0 <= d < Base()
        ensures charToDigitMap[digitToCharMap[d] as int] as int == d
      {
        var c := alphabet[d] as int;
        var e := DigitOf(alphabet, c);
        assert e != 255 by { assert alphabet[d] as int == c; }
        assert alphabet[e] == alphabet[d];
      }
    }

    /** 255 marks exactly the codes of characters outside the alphabet, and
     *  every other entry is a digit of the base. */
    lemma AbsentIs255(c: int)
      requires Valid() && 0 <= c < 256
      ensures charToDigitMap[c] == 255 <==> forall i | 0 <= i < Base() :: alphabet[i] as int != c
      ensures charToDigitMap[c] != 255 ==>
        charToDigitMap[c] as int < Base() && alphabet[charToDigitMap[c]] as int == c
    {}
  }

  /** `new BasekEncoding(alphabet)` with its checks (lib/main.ts:56-102): the
   *  scan that throws on the first bad character, keeping the
   *  character-to-index map the source keeps, then the length check. */
  method NewEncoding(alphabet: string) returns (r: Result<BasekEncoding, AlphabetError>)
    ensures r.Failure? <==> Check(alphabet).Some?
    ensures r.Failure? ==> Check(alphabet) == Some(r.error)
    ensures r.Success? ==> fresh(r.value) && r.value.Valid() && r.value.alphabet == alphabet
  {
    var charIndexes: map<int, int> := map[];
    var i := 0;
    while i < |alphabet|
      invariant 0 <= i <= |alphabet|
      invariant Check(alphabet) == CheckFrom(alphabet, i)
      invariant forall x :: x in charIndexes <==> x in Codes(alphabet[..i])
    {
      if IsWhitespace(alphabet[i]) {
        return Failure(Whitespace(i));
      }
      var charCode := alphabet[i] as int;
      if charCode > 127 {
        return Failure(NonAscii(i));
      }
      if charCode in charIndexes {
        var j :| 0 <= j < i && Codes(alphabet[..i])[j] == charCode;
        assert alphabet[..i][j] == alphabet[i];
        return Failure(Repeated(i));
      }
      forall j | 0 <= j < i
        ensures alphabet[..i][j] != alphabet[i]
      {
        assert Codes(alphabet[..i])[j] != charCode;
      }
      charIndexes := charIndexes[charCode := i];
      assert Codes(alphabet[..i + 1]) == Codes(alphabet[..i]) + [charCode];
      i := i + 1;
    }
    if |alphabet| < 2 {
      return Failure(TooShort);
    }
    CheckAccepts(alphabet);
    var encoding := new BasekEncoding(alphabet);
    return Success(encoding);
  }
}
