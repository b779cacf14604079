/** The deterministic helpers of the utilities module: address truncation,
    string sanitising and case conversion, the password rule checker, the
    extraction of a transfer summary from a receipt, and the attempt counting
    of the retry helper. */
module Utils {
  import opened Wrappers
  import opened Patterns
  import Validators

  // ---------------------------------------------------------------------------
  // truncateAddress
  // ---------------------------------------------------------------------------

  const DefaultStartChars: nat := 6
  const DefaultEndChars: nat := 4

  /** String.prototype.slice(start) for an integer start: a negative start
      counts back from the end, and -0 is 0. */
  function SliceFrom(s: string, start: int): (r: string)
    ensures 0 <= start <= |s| ==> r == s[start..]
    ensures -|s| <= start < 0 ==> r == s[|s| + start..]
  {
    if start >= 0 then (if start <= |s| then s[start..] else [])
    else if |s| + start >= 0 then s[|s| + start..]
    else s
  }

  /** truncateAddress as written: the first `startChars` characters, "..."
      and `address.slice(-endChars)`. With `endChars` = 0 the slice is the
      whole string, so the "truncated" text is longer than the input. */
  function TruncateAddress(address: string, startChars: nat, endChars: nat): (r: string)
    ensures |address| <= startChars + endChars ==> r == address
    ensures |address| > startChars + endChars && endChars > 0 ==>
      && r == address[..startChars] + "..." + address[|address| - endChars..]
      && |r| == startChars + endChars + 3
    ensures |address| > startChars + endChars && endChars == 0 ==>
      r == address[..startChars] + "..." + address && |r| == startChars + 3 + |address|
  {
    if |address| <= startChars + endChars then address
    else address[..startChars] + "..." + SliceFrom(address, -(endChars as int))
  }

  /** With no end characters requested, truncation makes an address longer. */
  lemma TruncateAddressEndZero()
    ensures TruncateAddress("0x0123456789", 6, 0) == "0x0123...0x0123456789"
    ensures |TruncateAddress("0x0123456789", 6, 0)| > |"0x0123456789"|
  {
    assert "0x0123456789"[..6] == "0x0123";
  }

  /** truncateAddress as evidently intended: the last `endChars` characters,
      none when `endChars` is 0. */
  function TruncateAddressIntended(address: string, startChars: nat, endChars: nat): (r: string)
    ensures |address| <= startChars + endChars ==> r == address
    ensures |address| > startChars + endChars ==>
      && r == address[..startChars] + "..." + address[|address| - endChars..]
      && |r| == startChars + endChars + 3
    ensures |r| <= |address| + 3
  {
    if |address| <= startChars + endChars then address
    else address[..startChars] + "..." + address[|address| - endChars..]
  }

  /** The two agree whenever at least one end character is kept. */
  lemma TruncateAddressAgrees(address: string, startChars: nat, endChars: nat)
    requires endChars > 0
    ensures TruncateAddress(address, startChars, endChars) ==
            TruncateAddressIntended(address, startChars, endChars)
  {
  }

  /** With the default widths an Ethereum address shows as "0x" and four
      digits, "...", and its last four digits: 13 characters. */
  lemma TruncatedEthereumAddress(address: string)
    requires Validators.IsValidEthereumAddress(address)
    ensures TruncateAddress(address, DefaultStartChars, DefaultEndChars) ==
            address[..6] + "..." + address[38..]
    ensures |TruncateAddress(address, DefaultStartChars, DefaultEndChars)| == 13
    ensures TruncateAddress(address, DefaultStartChars, DefaultEndChars)[..2] == "0x"
  {
    assert address[..6][..2] == address[..2];
  }

  // ---------------------------------------------------------------------------
  // sanitizeString
  // ---------------------------------------------------------------------------

  /** The characters sanitizeString deletes: < > ' " & */
  predicate IsUnsafe(c: char)
  {
    c == '<' || c == '>' || c == '\'' || c == '"' || c == '&'
  }

  /** sanitizeString: `input` with every unsafe character deleted. */
  function SanitizeString(input: string): (r: string)
    ensures forall i :: 0 <= i < |r| ==> !IsUnsafe(r[i])
    ensures |r| <= |input|
  {
    if input == [] then []
    else if IsUnsafe(input[0]) then SanitizeString(input[1..])
    else [input[0]] + SanitizeString(input[1..])
  }

  /** Sanitising works character by character: the kept characters stay in
      order. */
  lemma {:induction false} SanitizeAppend(a: string, b: string)
    ensures SanitizeString(a + b) == SanitizeString(a) + SanitizeString(b)
    decreases |a|
  {
    if a == [] {
      assert a + b == b;
    } else {
      assert (a + b)[0] == a[0] && (a + b)[1..] == a[1..] + b;
      SanitizeAppend(a[1..], b);
      if !IsUnsafe(a[0]) {
        assert SanitizeString(a + b) == [a[0]] + (SanitizeString(a[1..]) + SanitizeString(b));
      }
    }
  }

  /** A string without unsafe characters is left as it is. */
  lemma {:induction false} SanitizeSafe(s: string)
    requires forall i :: 0 <= i < |s| ==> !IsUnsafe(s[i])
    ensures SanitizeString(s) == s
    decreases |s|
  {
    if s != [] {
      SanitizeSafe(s[1..]);
    }
  }

  /** Sanitising twice is sanitising once. */
  lemma SanitizeIdempotent(s: string)
    ensures SanitizeString(SanitizeString(s)) == SanitizeString(s)
  {
    SanitizeSafe(SanitizeString(s));
  }

  /** Every safe character keeps its number of occurrences. */
  lemma {:induction false} SanitizeKeepsSafe(s: string, c: char)
    requires !IsUnsafe(c)
    ensures multiset(SanitizeString(s))[c] == multiset(s)[c]
    decreases |s|
  {
    if s != [] {
      SanitizeKeepsSafe(s[1..], c);
      assert s == [s[0]] + s[1..];
    }
  }

  // ---------------------------------------------------------------------------
  // toSnakeCase / toCamelCase
  // ---------------------------------------------------------------------------

  predicate IsAsciiUpper(c: char) { 'A' <= c <= 'Z' }

  predicate IsAsciiLower(c: char) { 'a' <= c <= 'z' }

  function ToLower(c: char): (r: char)
    requires IsAsciiUpper(c)
    ensures IsAsciiLower(r)
  {
    (c as int + 32) as char
  }

  function ToUpper(c: char): (r: char)
    requires IsAsciiLower(c)
    ensures IsAsciiUpper(r) && ToLower(r) == c
  {
    (c as int - 32) as char
  }

  /** toSnakeCase: every ASCII capital becomes '_' and its lower-case letter;
      every other character is kept. */
  function ToSnakeCase(str: string): (r: string)
    ensures forall i :: 0 <= i < |r| ==> !IsAsciiUpper(r[i])
    ensures |r| >= |str|
  {
    if str == [] then []
    else if IsAsciiUpper(str[0]) then ['_', ToLower(str[0])] + ToSnakeCase(str[1..])
    else [str[0]] + ToSnakeCase(str[1..])
  }

  /** Snake case works character by character. */
  lemma {:induction false} SnakeCaseAppend(a: string, b: string)
    ensures ToSnakeCase(a + b) == ToSnakeCase(a) + ToSnakeCase(b)
    decreases |a|
  {
    if a == [] {
      assert a + b == b;
    } else {
      assert (a + b)[0] == a[0] && (a + b)[1..] == a[1..] + b;
      SnakeCaseAppend(a[1..], b);
      if IsAsciiUpper(a[0]) {
        assert ToSnakeCase(a + b) == ['_', ToLower(a[0])] + (ToSnakeCase(a[1..]) + ToSnakeCase(b));
      } else {
        assert ToSnakeCase(a + b) == [a[0]] + (ToSnakeCase(a[1..]) + ToSnakeCase(b));
      }
    }
  }

  /** One character: a capital becomes '_' and its lower-case letter, any
      other character stays. */
  lemma SnakeCaseChar(c: char)
    ensures ToSnakeCase([c]) == if IsAsciiUpper(c) then ['_', ToLower(c)] else [c]
  {
    assert [c][1..] == [];
  }

  /** No '_' directly before an ASCII lower-case letter. */
  predicate NoUnderscoreLower(s: string)
  {
    forall i :: 0 <= i < |s| - 1 && s[i] == '_' ==> !IsAsciiLower(s[i + 1])
  }

  /** toCamelCase: scanning left to right, each '_' followed by an ASCII
      lower-case letter becomes that letter in upper case; the scan resumes
      after the letter. */
  function ToCamelCase(str: string): (r: string)
    ensures |r| <= |str|
    ensures str != [] ==> r != []
    ensures r != [] && IsAsciiLower(r[0]) ==> str[0] == r[0]
    ensures NoUnderscoreLower(r)
  {
    if str == [] then []
    else if |str| >= 2 && str[0] == '_' && IsAsciiLower(str[1]) then
      [ToUpper(str[1])] + ToCamelCase(str[2..])
    else [str[0]] + ToCamelCase(str[1..])
  }

  /** A string already in snake case is its own snake case. */
  lemma {:induction false} SnakeCaseIdempotent(s: string)
    ensures ToSnakeCase(ToSnakeCase(s)) == ToSnakeCase(s)
  {
    SnakeCaseOfLower(ToSnakeCase(s));
  }

  lemma {:induction false} SnakeCaseOfLower(s: string)
    requires forall i :: 0 <= i < |s| ==> !IsAsciiUpper(s[i])
    ensures ToSnakeCase(s) == s
    decreases |s|
  {
    if s != [] {
      SnakeCaseOfLower(s[1..]);
    }
  }

  /** A string with no '_' before a lower-case letter is its own camel case,
      so camel case is idempotent. */
  lemma {:induction false} CamelCaseFixed(s: string)
    requires NoUnderscoreLower(s)
    ensures ToCamelCase(s) == s
    decreases |s|
  {
    if s != [] {
      CamelCaseFixed(s[1..]);
    }
  }

  lemma CamelCaseIdempotent(s: string)
    ensures ToCamelCase(ToCamelCase(s)) == ToCamelCase(s)
  {
    CamelCaseFixed(ToCamelCase(s));
  }

  /** Camel case undoes snake case on every string that has no '_' directly
      before a lower-case letter (for instance "fooBar" -> "foo_bar" -> "fooBar"). */
  lemma {:induction false} CamelOfSnake(s: string)
    requires NoUnderscoreLower(s)
    ensures ToCamelCase(ToSnakeCase(s)) == s
    decreases |s|
  {
    if s != [] {
      CamelOfSnake(s[1..]);
      var rest := ToSnakeCase(s[1..]);
      if IsAsciiUpper(s[0]) {
        assert ToSnakeCase(s) == ['_', ToLower(s[0])] + rest;
        assert (['_', ToLower(s[0])] + rest)[2..] == rest;
      } else {
        assert ToSnakeCase(s) == [s[0]] + rest;
        if s[0] == '_' && rest != [] {
          // rest starts with '_' (from a capital) or with s[1], which is not lower case
          assert rest[0] == '_' || rest[0] == s[1];
        }
        assert ([s[0]] + rest)[1..] == rest;
      }
    }
  }

  // ---------------------------------------------------------------------------
  // check_password
  // ---------------------------------------------------------------------------

  datatype Strength = Weak | Medium | Strong

  datatype PasswordReport = PasswordReport(isValid: bool, errors: seq<string>, strength: Strength)

  /** The five rules, in the order they are checked. */
  datatype Rule = MinLength | HasUpper | HasLower | HasDigit | HasSpecial

  /** [A-Z] */
  const UpperClass: CharClass := CharClass(false, [('A', 'Z')])
  /** [a-z] */
  const LowerClass: CharClass := CharClass(false, [('a', 'z')])
  /** \d */
  const DigitClass: CharClass := CharClass(false, [('0', '9')])
  /** [!@#$%^&*()_+\-=\[\]{};':"\\|,.<>\/?], which lists every character of
      the ASCII runs ! to /, : to @, [ to _ and { to }. */
  const SpecialClass: CharClass := CharClass(false, [('!', '/'), (':', '@'), ('[', '_'), ('{', '}')])

  predicate Satisfies(password: string, rule: Rule)
  {
    match rule
    case MinLength => |password| >= 8
    case HasUpper => ContainsClass(password, UpperClass)
    case HasLower => ContainsClass(password, LowerClass)
    case HasDigit => ContainsClass(password, DigitClass)
    case HasSpecial => ContainsClass(password, SpecialClass)
  }

  function Message(rule: Rule): string
  {
    match rule
    case MinLength => "Password must be at least 8 characters long"
    case HasUpper => "Password must contain at least one uppercase letter"
    case HasLower => "Password must contain at least one lowercase letter"
    case HasDigit => "Password must contain at least one digit"
    case HasSpecial => "Password must contain at least one special character"
  }

  /** The message of `rule` if `password` fails it, nothing otherwise. */
  function Complaint(password: string, rule: Rule): seq<string>
  {
    if Satisfies(password, rule) then [] else [Message(rule)]
  }

  /** The messages of all failed rules, in the order the rules are checked. */
  function PasswordErrors(password: string): seq<string>
  {
    Complaint(password, MinLength) + Complaint(password, HasUpper) + Complaint(password, HasLower)
    + Complaint(password, HasDigit) + Complaint(password, HasSpecial)
  }

  /** Distinct rules have distinct messages. */
  lemma MessagesDistinct(r1: Rule, r2: Rule)
    requires r1 != r2
    ensures Message(r1) != Message(r2)
  {
    assert Message(HasUpper)[35] == 'u' && Message(HasLower)[35] == 'l';
    assert |Message(MinLength)| == 43 && |Message(HasDigit)| == 40 && |Message(HasSpecial)| == 52;
    assert |Message(HasUpper)| == 51 && |Message(HasLower)| == 51;
  }

  /** A message is reported exactly when its rule fails, and nothing is
      reported exactly when every rule holds. */
  lemma PasswordErrorsExact(password: string)
    ensures forall r :: Message(r) in PasswordErrors(password) <==> !Satisfies(password, r)
    ensures PasswordErrors(password) == [] <==> forall r :: Satisfies(password, r)
  {
    forall r, r' | r' != r
      ensures Message(r) !in Complaint(password, r')
    {
      MessagesDistinct(r, r');
    }
    if PasswordErrors(password) == [] {
      forall r ensures Satisfies(password, r) {
        assert Complaint(password, r) == [];
      }
    }
  }

  /** check_password: one message per failed rule in the order length, upper
      case, lower case, digit, special character; valid when there is none;
      strength weak when invalid, strong when valid and at least 12
      characters long, medium otherwise. */
  method CheckPassword(password: string) returns (report: PasswordReport)
    ensures report.errors == PasswordErrors(password)
    ensures report.isValid <==> report.errors == []
    ensures report.isValid <==> forall r :: Satisfies(password, r)
    ensures forall r :: Message(r) in report.errors <==> !Satisfies(password, r)
    ensures report.strength == Weak <==> !report.isValid
    ensures report.strength == Strong <==> report.isValid && |password| >= 12
  {
    var errors: seq<string> := [];
    var strength := Weak;
    if |password| < 8 {
      errors := errors + [Message(MinLength)];
    }
    assert errors == Complaint(password, MinLength);
    if !ContainsClass(password, UpperClass) {
      errors := errors + [Message(HasUpper)];
    }
    assert errors == Complaint(password, MinLength) + Complaint(password, HasUpper);
    if !ContainsClass(password, LowerClass) {
      errors := errors + [Message(HasLower)];
    }
    assert errors == Complaint(password, MinLength) + Complaint(password, HasUpper)
      + Complaint(password, HasLower);
    if !ContainsClass(password, DigitClass) {
      errors := errors + [Message(HasDigit)];
    }
    assert errors == Complaint(password, MinLength) + Complaint(password, HasUpper)
      + Complaint(password, HasLower) + Complaint(password, HasDigit);
    var special := ContainsClass(password, SpecialClass);
    if !special {
      errors := errors + [Message(HasSpecial)];
    }
    if |errors| == 0 {
      if |password| >= 12 && special {
        strength := Strong;
      } else {
        strength := Medium;
      }
    }
    assert errors == PasswordErrors(password);
    PasswordErrorsExact(password);
    report := PasswordReport(|errors| == 0, errors, strength);
  }

  // ---------------------------------------------------------------------------
  // extractTransactionInfo
  // ---------------------------------------------------------------------------

  /** An emitted event; `args` are the texts of its arguments, `None` for a
      null or undefined one. */
  datatype Event = Event(args: Option<seq<Option<string>>>)

  /** The receipt fields the extraction reads; `events` entries may be null. */
  datatype Receipt = Receipt(
    transactionHash: string, status: int, from: string, to: string,
    events: Option<seq<Option<Event>>>)

  datatype TransactionInfo = TransactionInfo(
    transactionHash: string, status: int, from: string, to: string, amount: string)

  /** receipt.events?.[0]?.args?.[2]?.toString(), `None` when a link is missing. */
  function ThirdArgOfFirstEvent(receipt: Receipt): Option<string>
  {
    match receipt.events
    case None => None
    case Some(events) =>
      if |events| == 0 then None
      else match events[0]
        case None => None
        case Some(event) =>
          match event.args
          case None => None
          case Some(args) => if |args| < 3 then None else args[2]
  }

  /** extractTransactionInfo: hash, status, sender and recipient copied; the
      amount is the third argument of the first event, or "0" when any link
      to it is missing or it is empty, so it is never empty. */
  function ExtractTransactionInfo(receipt: Receipt): (info: TransactionInfo)
    ensures info.transactionHash == receipt.transactionHash && info.status == receipt.status
    ensures info.from == receipt.from && info.to == receipt.to
    ensures info.amount != ""
    ensures (|| receipt.events.None? || |receipt.events.value| == 0
             || receipt.events.value[0].None? || receipt.events.value[0].value.args.None?
             || |receipt.events.value[0].value.args.value| <= 2
             || receipt.events.value[0].value.args.value[2].None?
             || receipt.events.value[0].value.args.value[2].value == "") ==>
      info.amount == "0"
    ensures receipt.events.Some? && |receipt.events.value| > 0 && receipt.events.value[0].Some? &&
            receipt.events.value[0].value.args.Some? && |receipt.events.value[0].value.args.value| > 2 &&
            receipt.events.value[0].value.args.value[2].Some? &&
            receipt.events.value[0].value.args.value[2].value != "" ==>
      info.amount == receipt.events.value[0].value.args.value[2].value
  {
    var amount := match ThirdArgOfFirstEvent(receipt)
      case Some(text) => if text == "" then "0" else text
      case None => "0";
    TransactionInfo(receipt.transactionHash, receipt.status, receipt.from, receipt.to, amount)
  }

  // ---------------------------------------------------------------------------
  // retry
  // ---------------------------------------------------------------------------

  /** The outcome of one call of the retried function. */
  datatype Attempt<T> = Succeeded(value: T) | Failed(error: string)

  /** What retry settles with: the first value returned, or the error thrown
      (`None` stands for `undefined`). */
  datatype RetryOutcome<T> = Returned(value: T) | Threw(error: Option<string>)

  /** The default number of attempts and the default base delay, in milliseconds. */
  const DefaultMaxAttempts: int := 3
  const DefaultBaseDelay: int := 1000

  function Pow2(k: nat): (p: nat)
    ensures p >= 1
  {
    if k == 0 then 1 else 2 * Pow2(k - 1)
  }

  /** retry: `fn(k)` is the outcome of the (k+1)-th call. Calls until one
      succeeds or `maxAttempts` calls have failed, sleeping baseDelay * 2^(k-1)
      after the k-th failure when another attempt follows. Returns the
      outcome, the number of calls made and the delays slept, in order. */
  method Retry<T>(fn: nat -> Attempt<T>, maxAttempts: int, baseDelay: int)
    returns (outcome: RetryOutcome<T>, calls: nat, delays: seq<int>)
    ensures maxAttempts < 1 ==> calls == 0 && outcome == Threw(None)
    ensures maxAttempts >= 1 ==> 1 <= calls <= maxAttempts
    ensures forall k :: 0 <= k < calls - 1 ==> fn(k).Failed?
    ensures outcome.Returned? ==> fn(calls - 1) == Succeeded(outcome.value)
    ensures outcome.Returned? <==> exists k :: 0 <= k < maxAttempts && fn(k).Succeeded?
    ensures outcome.Threw? && maxAttempts >= 1 ==>
      calls == maxAttempts && outcome.error == Some(fn(calls - 1).error)
    ensures |delays| == (if calls == 0 then 0 else calls - 1)
    ensures forall k :: 0 <= k < |delays| ==> delays[k] == baseDelay * Pow2(k)
  {
    calls := 0;
    delays := [];
    if maxAttempts < 1 {
      // the loop body never runs and `lastError` is still undefined
      return Threw(None), calls, delays;
    }
    // every attempt but the last: a failure is followed by a sleep
    var attempt := 1;
    while attempt < maxAttempts
      invariant 1 <= attempt <= maxAttempts
      invariant calls == attempt - 1
      invariant forall k :: 0 <= k < calls ==> fn(k).Failed?
      invariant |delays| == calls
      invariant forall k :: 0 <= k < |delays| ==> delays[k] == baseDelay * Pow2(k)
      decreases maxAttempts - attempt
    {
      var result := fn(attempt - 1);
      calls := calls + 1;
      if result.Succeeded? {
        return Returned(result.value), calls, delays;
      }
      delays := delays + [baseDelay * Pow2(attempt - 1)];
      attempt := attempt + 1;
    }
    // the last attempt: a failure is thrown
    var result := fn(attempt - 1);
    calls := calls + 1;
    match result {
      case Succeeded(value) => outcome := Returned(value);
      case Failed(error) => outcome := Threw(Some(error));
    }
  }

  /** retry with its defaults: at most three calls, with sleeps of one and
      then two seconds between them. */
  method RetryWithDefaults<T>(fn: nat -> Attempt<T>)
    returns (outcome: RetryOutcome<T>, calls: nat, delays: seq<int>)
    ensures 1 <= calls <= 3
    ensures outcome.Returned? <==> fn(0).Succeeded? || fn(1).Succeeded? || fn(2).Succeeded?
    ensures delays == [1000, 2000][..calls - 1]
  {
    outcome, calls, delays := Retry(fn, DefaultMaxAttempts, DefaultBaseDelay);
    assert Pow2(1) == 2;
    assert outcome.Returned? ==> exists k :: 0 <= k < 3 && fn(k).Succeeded?;
  }
}
