/** The format validators of the utilities module: Ethereum addresses,
    private keys, transaction hashes, Tron addresses and e-mail addresses.
    Each is the regular expression of the source, written as a `Patterns`
    pattern, and each is proved equal to a direct description of the strings
    it accepts. */
module Validators {
  import opened Patterns

  predicate IsHexDigit(c: char)
  {
    '0' <= c <= '9' || 'a' <= c <= 'f' || 'A' <= c <= 'F'
  }

  predicate AllHexDigits(s: string)
  {
    forall i :: 0 <= i < |s| ==> IsHexDigit(s[i])
  }

  predicate IsAsciiLetter(c: char)
  {
    'A' <= c <= 'Z' || 'a' <= c <= 'z'
  }

  /** [a-fA-F0-9] */
  const HexClass: CharClass := CharClass(false, [('a', 'f'), ('A', 'F'), ('0', '9')])

  /** [A-Za-z1-9] */
  const TronClass: CharClass := CharClass(false, [('A', 'Z'), ('a', 'z'), ('1', '9')])

  /** The characters `\s` stands for in a JavaScript regular expression. */
  const JsWhitespace: seq<(char, char)> := [
    ('\t', '\r'), (' ', ' '), ('\U{00A0}', '\U{00A0}'), ('\U{1680}', '\U{1680}'),
    ('\U{2000}', '\U{200A}'), ('\U{2028}', '\U{2029}'), ('\U{202F}', '\U{202F}'),
    ('\U{205F}', '\U{205F}'), ('\U{3000}', '\U{3000}'), ('\U{FEFF}', '\U{FEFF}')]

  /** [^\s@] */
  const EmailPartClass: CharClass := CharClass(true, JsWhitespace + [('@', '@')])

  /** ^0x[a-fA-F0-9]{40}$ */
  const EthAddressPattern: seq<Piece> := [Lit('0'), Lit('x'), Exactly(HexClass, 40)]

  /** ^0x[a-fA-F0-9]{64}$ */
  const TxHashPattern: seq<Piece> := [Lit('0'), Lit('x'), Exactly(HexClass, 64)]

  /** ^[a-fA-F0-9]{64}$ */
  const PrivateKeyPattern: seq<Piece> := [Exactly(HexClass, 64)]

  /** ^T[A-Za-z1-9]{33}$ */
  const TronAddressPattern: seq<Piece> := [Lit('T'), Exactly(TronClass, 33)]

  /** ^[^\s@]+@[^\s@]+\.[^\s@]+$ */
  const EmailPattern: seq<Piece> := Separated(EmailPartClass, '@', '.')

  lemma HexClassIsHexDigit(c: char)
    ensures InClass(c, HexClass) <==> IsHexDigit(c)
  {
    if 'a' <= c <= 'f' {
      assert HexClass.ranges[0].0 <= c <= HexClass.ranges[0].1;
    } else if 'A' <= c <= 'F' {
      assert HexClass.ranges[1].0 <= c <= HexClass.ranges[1].1;
    } else if '0' <= c <= '9' {
      assert HexClass.ranges[2].0 <= c <= HexClass.ranges[2].1;
    }
  }

  lemma AllInHexClass(s: string)
    ensures AllIn(s, HexClass) <==> AllHexDigits(s)
  {
    forall i | 0 <= i < |s| {
      HexClassIsHexDigit(s[i]);
    }
  }

  /** "0x" followed by `n` characters of [a-fA-F0-9], nothing else. */
  lemma PrefixedHexShape(s: string, n: nat)
    ensures Matches([Lit('0'), Lit('x'), Exactly(HexClass, n)], s) <==>
      |s| == n + 2 && s[..2] == "0x" && AllHexDigits(s[2..])
  {
    assert [Lit('0'), Lit('x'), Exactly(HexClass, n)] == [Lit('0')] + [Lit('x'), Exactly(HexClass, n)];
    assert [Lit('x'), Exactly(HexClass, n)] == [Lit('x')] + [Exactly(HexClass, n)];
    MatchesLit('0', [Lit('x'), Exactly(HexClass, n)], s);
    if |s| > 0 {
      MatchesLit('x', [Exactly(HexClass, n)], s[1..]);
      if |s| > 1 {
        assert s[1..][1..] == s[2..];
        MatchesOnlyExactly(HexClass, n, s[2..]);
        AllInHexClass(s[2..]);
      }
    }
  }

  /** isValidEthereumAddress: "0x" and exactly 40 hexadecimal digits of
      either case, 42 characters in all. */
  function IsValidEthereumAddress(address: string): (valid: bool)
    ensures valid <==> |address| == 42 && address[..2] == "0x" && AllHexDigits(address[2..])
  {
    PrefixedHexShape(address, 40);
    Matches(EthAddressPattern, address)
  }

  /** isValidTxHash: "0x" and exactly 64 hexadecimal digits of either case,
      66 characters in all. */
  function IsValidTxHash(hash: string): (valid: bool)
    ensures valid <==> |hash| == 66 && hash[..2] == "0x" && AllHexDigits(hash[2..])
  {
    PrefixedHexShape(hash, 64);
    Matches(TxHashPattern, hash)
  }

  /** isValidPrivateKey: one leading "0x" is dropped if present, and what
      remains must be exactly 64 hexadecimal digits; so the bare 64-digit form
      and the 66-character "0x" form are both accepted. */
  function IsValidPrivateKey(privateKey: string): (valid: bool)
    ensures valid <==>
      || (|privateKey| == 64 && AllHexDigits(privateKey))
      || (|privateKey| == 66 && privateKey[..2] == "0x" && AllHexDigits(privateKey[2..]))
  {
    var cleanKey := if |privateKey| >= 2 && privateKey[..2] == "0x" then privateKey[2..] else privateKey;
    MatchesOnlyExactly(HexClass, 64, cleanKey);
    AllInHexClass(cleanKey);
    assert |privateKey| >= 2 && privateKey[..2] == "0x" ==> !AllHexDigits(privateKey) by {
      if |privateKey| >= 2 && privateKey[..2] == "0x" {
        assert privateKey[1] == 'x' && !IsHexDigit('x');
      }
    }
    Matches(PrivateKeyPattern, cleanKey)
  }

  /** A transaction hash is exactly a private key in its "0x" form. */
  lemma TxHashIsPrefixedPrivateKey(s: string)
    ensures IsValidTxHash(s) <==> |s| == 66 && IsValidPrivateKey(s)
  {
  }

  /** An Ethereum address is never a transaction hash nor a private key. */
  lemma AddressIsNotKey(s: string)
    requires IsValidEthereumAddress(s)
    ensures !IsValidTxHash(s) && !IsValidPrivateKey(s)
  {
  }

  lemma TronClassMembers(c: char)
    ensures InClass(c, TronClass) <==> IsAsciiLetter(c) || '1' <= c <= '9'
  {
    if 'A' <= c <= 'Z' {
      assert TronClass.ranges[0].0 <= c <= TronClass.ranges[0].1;
    } else if 'a' <= c <= 'z' {
      assert TronClass.ranges[1].0 <= c <= TronClass.ranges[1].1;
    } else if '1' <= c <= '9' {
      assert TronClass.ranges[2].0 <= c <= TronClass.ranges[2].1;
    }
  }

  lemma TronPatternShape(address: string)
    ensures Matches(TronAddressPattern, address) <==> (|address| == 34 && address[0] == 'T' &&
      forall i :: 1 <= i < 34 ==> IsAsciiLetter(address[i]) || '1' <= address[i] <= '9')
  {
    assert TronAddressPattern == [Lit('T')] + [Exactly(TronClass, 33)];
    MatchesLit('T', [Exactly(TronClass, 33)], address);
    if |address| > 0 {
      MatchesOnlyExactly(TronClass, 33, address[1..]);
      forall i | 1 <= i < |address| {
        TronClassMembers(address[i]);
      }
    }
  }

  /** isValidTronAddress: 'T' and exactly 33 ASCII letters or digits 1-9, 34
      characters in all. */
  function IsValidTronAddress(address: string): (valid: bool)
    ensures valid <==> (|address| == 34 && address[0] == 'T' &&
      forall i :: 1 <= i < 34 ==> IsAsciiLetter(address[i]) || '1' <= address[i] <= '9')
  {
    TronPatternShape(address);
    Matches(TronAddressPattern, address)
  }

  /** The digit 0 never occurs in a valid Tron address. */
  lemma TronAddressHasNoZero(address: string)
    requires IsValidTronAddress(address)
    ensures '0' !in address
  {
    forall i | 0 <= i < |address| ensures address[i] != '0' {
    }
  }

  /** A character an e-mail part may hold: neither `\s` whitespace nor '@'. */
  predicate EmailChar(c: char)
  {
    !InRanges(c, JsWhitespace) && c != '@'
  }

  lemma EmailClassMembers(c: char)
    ensures InClass(c, EmailPartClass) <==> EmailChar(c)
  {
    var all := JsWhitespace + [('@', '@')];
    if InRanges(c, all) {
      var i :| 0 <= i < |all| && all[i].0 <= c <= all[i].1;
      if i < |JsWhitespace| {
        assert JsWhitespace[i] == all[i];
      }
    }
    if InRanges(c, JsWhitespace) {
      var i :| 0 <= i < |JsWhitespace| && JsWhitespace[i].0 <= c <= JsWhitespace[i].1;
      assert all[i] == JsWhitespace[i];
    }
    if c == '@' {
      assert all[|JsWhitespace|] == ('@', '@');
    }
  }

  /** `s` has its only '@' at `at`, which is not first; no `\s` whitespace;
      and a '.' at `dot`, past the character after '@' and before the last. */
  ghost predicate EmailShape(s: string, at: int, dot: int)
  {
    && 0 < at && at + 1 < dot < |s| - 1
    && s[at] == '@' && s[dot] == '.'
    && forall k :: 0 <= k < |s| && k != at ==> EmailChar(s[k])
  }

  lemma EmailSplitIsShape(s: string, at: int, dot: int)
    ensures SeparatedAt(s, EmailPartClass, '@', '.', at, dot) <==> EmailShape(s, at, dot)
  {
    forall k | 0 <= k < |s| {
      EmailClassMembers(s[k]);
    }
    assert EmailChar('.') by {
      assert !InRanges('.', JsWhitespace);
    }
  }

  lemma EmailPatternShape(s: string)
    ensures Matches(EmailPattern, s) <==> exists at, dot :: EmailShape(s, at, dot)
  {
    SeparatedMatches(EmailPartClass, '@', '.', s);
    if exists at, dot :: EmailShape(s, at, dot) {
      var at, dot :| EmailShape(s, at, dot);
      EmailSplitIsShape(s, at, dot);
    }
    if exists at, dot :: SeparatedAt(s, EmailPartClass, '@', '.', at, dot) {
      var at, dot :| SeparatedAt(s, EmailPartClass, '@', '.', at, dot);
      EmailSplitIsShape(s, at, dot);
    }
  }

  /** isValidEmail: one '@', not first; no whitespace; and a '.' after the
      '@' with at least one character on each side of it. */
  function IsValidEmail(email: string): (valid: bool)
    ensures valid <==> exists at, dot :: EmailShape(email, at, dot)
  {
    EmailPatternShape(email);
    Matches(EmailPattern, email)
  }

  /** A valid e-mail address holds exactly one '@'. */
  lemma EmailHasOneAt(email: string, at: int, other: int)
    requires IsValidEmail(email)
    requires 0 <= at < |email| && 0 <= other < |email|
    requires email[at] == '@' && email[other] == '@'
    ensures at == other
  {
    var a, d :| EmailShape(email, a, d);
  }
}
