/**
 * The password generator screen's `generate_password`: validate the options (a character
 * set chosen, a length that parses as `usize` after trimming and lies in 1..=256), build
 * the available characters (the chosen sets in a fixed order, minus the excluded ones),
 * and draw each character of the password from them. The random draws are a parameter:
 * `roll(i)` stands for the `i`-th call of `gen_range`, taken modulo the number of
 * available characters.
 */
module Generator {
  import opened Prelude
  import opened Errors

  const UppercaseChars: string := "ABCDEFGHIJKLMNOPQRSTUVWXYZ"
  const LowercaseChars: string := "abcdefghijklmnopqrstuvwxyz"
  const DigitChars: string := "0123456789"
  const SpecialChars: string := "!@#$%^&*()_+-=[]{}|;:,.<>?"

  const MaxPasswordLength: nat := 256
  /** `usize::MAX` on a 64-bit target. */
  const UsizeMax: nat := 0xFFFF_FFFF_FFFF_FFFF

  const NoCharsetMessage: string := "Необходимо выбрать хотя бы один набор символов"
  const InvalidLengthMessage: string := "Неверная длина пароля"
  const TooShortMessage: string := "Длина пароля должна быть не менее 1"
  const TooLongMessage: string := "Длина пароля не должна превышать 256"
  const NoCharsLeftMessage: string := "После исключения символов не осталось доступных символов"

  /** The generator screen's inputs. */
  datatype Options = Options(length: string, excludeChars: string, useUppercase: bool,
                             useLowercase: bool, useDigits: bool, useSpecial: bool)

  // ---------------------------------------------------------------------------
  // `str::trim` and `usize::from_str`
  // ---------------------------------------------------------------------------

  /** `char::is_whitespace`: the Unicode White_Space property. */
  predicate IsWhitespace(c: char)
  {
    || ('\U{0009}' <= c <= '\U{000D}') || c == ' ' || c == '\U{0085}' || c == '\U{00A0}'
    || c == '\U{1680}' || ('\U{2000}' <= c <= '\U{200A}') || c == '\U{2028}' || c == '\U{2029}'
    || c == '\U{202F}' || c == '\U{205F}' || c == '\U{3000}'
  }

  function TrimStart(s: string): (t: string)
    ensures |t| <= |s| && t == s[|s| - |t|..]
    ensures t != [] ==> !IsWhitespace(t[0])
    ensures forall i :: 0 <= i < |s| - |t| ==> IsWhitespace(s[i])
  {
    if s != [] && IsWhitespace(s[0]) then
      var t := TrimStart(s[1..]);
      assert forall i :: 1 <= i < |s| - |t| ==> s[i] == s[1..][i - 1];
      t
    else s
  }

  function TrimEnd(s: string): (t: string)
    ensures |t| <= |s| && t == s[..|t|]
    ensures t != [] ==> !IsWhitespace(t[|t| - 1])
    ensures forall i :: |t| <= i < |s| ==> IsWhitespace(s[i])
  {
    if s != [] && IsWhitespace(s[|s| - 1]) then TrimEnd(s[..|s| - 1]) else s
  }

  /** The number of white-space characters at the front of the text. */
  function Leading(s: string): (n: nat)
    ensures n <= |s|
    ensures forall i :: 0 <= i < n ==> IsWhitespace(s[i])
    ensures n < |s| ==> !IsWhitespace(s[n])
  {
    |s| - |TrimStart(s)|
  }

  /**
   * `str::trim`: the slice of the text after its leading white space and before its
   * trailing white space; whatever is cut off is white space, and what is kept neither
   * starts nor ends with it.
   */
  function Trim(s: string): (t: string)
    ensures Leading(s) + |t| <= |s| && t == s[Leading(s)..Leading(s) + |t|]
    ensures forall i :: Leading(s) + |t| <= i < |s| ==> IsWhitespace(s[i])
    ensures t != [] ==> !IsWhitespace(t[0]) && !IsWhitespace(t[|t| - 1])
  {
    var a := TrimStart(s);
    var t := TrimEnd(a);
    TrimIsInfix(s, a, t);
    t
  }

  /** The end of the start-trimmed text, trimmed, is an infix of the text followed by white space. */
  lemma TrimIsInfix(s: string, a: string, t: string)
    requires |a| <= |s| && a == s[|s| - |a|..]
    requires |t| <= |a| && t == a[..|t|]
    requires forall i :: |t| <= i < |a| ==> IsWhitespace(a[i])
    ensures t == s[|s| - |a|..|s| - |a| + |t|]
    ensures forall i :: |s| - |a| + |t| <= i < |s| ==> IsWhitespace(s[i])
  {
    forall i | |s| - |a| + |t| <= i < |s| ensures IsWhitespace(s[i]) {
      assert s[i] == a[i - (|s| - |a|)];
    }
  }

  predicate IsDigit(c: char)
  {
    '0' <= c <= '9'
  }

  predicate AllDigits(s: string)
  {
    forall i :: 0 <= i < |s| ==> IsDigit(s[i])
  }

  /** The number a string of decimal digits denotes, most significant digit first. */
  function DecimalValue(s: string): nat
    requires AllDigits(s)
  {
    if s == [] then 0 else 10 * DecimalValue(s[..|s| - 1]) + (s[|s| - 1] as int - '0' as int)
  }

  /**
   * `s.parse::<usize>()`: an optional '+', then one or more ASCII digits, denoting at most
   * `usize::MAX`. The checked accumulation overflows exactly when the whole value is too
   * large, since each step's value is at most the next one's.
   */
  function ParseUsize(s: string): (r: Option<nat>)
    ensures r.Some? ==> r.value <= UsizeMax
    ensures r.Some? ==> s != [] && s != "+"
  {
    var digits := if s != [] && s[0] == '+' then s[1..] else s;
    if digits == [] || !AllDigits(digits) then None
    else
      var v := DecimalValue(digits);
      if v > UsizeMax then None else Some(v)
  }

  /** The canonical decimal text of a number, as `to_string` writes it. */
  function Decimal(n: nat): (s: string)
    ensures s != [] && AllDigits(s)
    decreases n
  {
    var d := [('0' as int + n % 10) as char];
    if n < 10 then d else Decimal(n / 10) + d
  }

  lemma {:induction false} DecimalValueOf(n: nat)
    ensures DecimalValue(Decimal(n)) == n
    decreases n
  {
    var s := Decimal(n);
    if n >= 10 {
      DecimalValueOf(n / 10);
      assert s[..|s| - 1] == Decimal(n / 10);
    }
  }

  /** Every number up to `usize::MAX` parses back from its decimal text, with or without a '+'. */
  lemma ParseDecimal(n: nat)
    requires n <= UsizeMax
    ensures ParseUsize(Decimal(n)) == Some(n)
    ensures ParseUsize("+" + Decimal(n)) == Some(n)
  {
    DecimalValueOf(n);
    assert ("+" + Decimal(n))[1..] == Decimal(n);
  }

  /** A minus sign is never accepted: `usize` has no negative values. */
  lemma ParseRejectsMinus(s: string)
    ensures ParseUsize("-" + s) == None
  {
    assert ("-" + s)[0] == '-';
  }

  /** A number past `usize::MAX` does not parse. */
  lemma ParseRejectsOverflow(n: nat)
    requires n > UsizeMax
    ensures ParseUsize(Decimal(n)) == None
  {
    DecimalValueOf(n);
  }

  // ---------------------------------------------------------------------------
  // The available characters
  // ---------------------------------------------------------------------------

  predicate AnySetChosen(o: Options)
  {
    o.useUppercase || o.useLowercase || o.useDigits || o.useSpecial
  }

  /** `extend` with a set when it is chosen. */
  function ExtendIf(cs: seq<char>, chosen: bool, charset: string): seq<char>
  {
    if chosen then cs + charset else cs
  }

  /** The chosen sets, in the order they are added: upper case, lower case, digits, specials. */
  function Chosen(o: Options): seq<char>
  {
    var upper := ExtendIf([], o.useUppercase, UppercaseChars);
    var lower := ExtendIf(upper, o.useLowercase, LowercaseChars);
    var digits := ExtendIf(lower, o.useDigits, DigitChars);
    ExtendIf(digits, o.useSpecial, SpecialChars)
  }

  /** `retain(|c| !exclude.contains(c))`, stated from the end so a loop can follow it. */
  function Without(cs: seq<char>, exclude: string): (r: seq<char>)
    ensures |r| <= |cs|
  {
    if cs == [] then []
    else
      var last := cs[|cs| - 1];
      Without(cs[..|cs| - 1], exclude) + (if last in exclude then [] else [last])
  }

  /** A character survives `retain` exactly when it was there and is not excluded. */
  lemma {:induction false} WithoutMembers(cs: seq<char>, exclude: string, c: char)
    ensures c in Without(cs, exclude) <==> c in cs && c !in exclude
  {
    if cs != [] {
      var init := cs[..|cs| - 1];
      WithoutMembers(init, exclude, c);
      assert cs == init + [cs[|cs| - 1]];
    }
  }

  /** The characters a password is drawn from. */
  function Available(o: Options): seq<char>
  {
    Without(Chosen(o), o.excludeChars)
  }

  /** A character is available exactly when a chosen set holds it and it is not excluded. */
  lemma AvailableMembers(o: Options, c: char)
    ensures c in Available(o) <==>
              && c !in o.excludeChars
              && ((o.useUppercase && c in UppercaseChars) || (o.useLowercase && c in LowercaseChars)
                  || (o.useDigits && c in DigitChars) || (o.useSpecial && c in SpecialChars))
  {
    WithoutMembers(Chosen(o), o.excludeChars, c);
  }

  /** With nothing excluded, any chosen set leaves characters to draw from. */
  lemma AvailableWithoutExclusions(o: Options)
    requires AnySetChosen(o) && o.excludeChars == []
    ensures Available(o) != []
  {
    var c := if o.useUppercase then 'A' else if o.useLowercase then 'a' else if o.useDigits then '0' else '!';
    AvailableMembers(o, c);
  }

  /** The password for `length` draws from `available`. */
  function Draw(available: seq<char>, length: nat, roll: nat -> nat): (pw: string)
    requires available != []
    ensures |pw| == length
    ensures forall i :: 0 <= i < length ==> pw[i] == available[roll(i) % |available|]
  {
    seq(length, i requires 0 <= i < length => available[roll(i) % |available|])
  }

  // ---------------------------------------------------------------------------
  // The generator
  // ---------------------------------------------------------------------------

  /**
   * What `generate_password` returns. The checks come in order: a set must be chosen; the
   * trimmed length must parse; it must be at least 1 and at most 256; some character must
   * be left after the exclusions. A generated password has the parsed length and only
   * available characters.
   */
  function Generated(o: Options, roll: nat -> nat): (r: Result<string>)
    ensures !AnySetChosen(o) ==> r == Err(Crypto(NoCharsetMessage))
    ensures AnySetChosen(o) && ParseUsize(Trim(o.length)).None? ==> r == Err(Crypto(InvalidLengthMessage))
    ensures AnySetChosen(o) && ParseUsize(Trim(o.length)) == Some(0) ==> r == Err(Crypto(TooShortMessage))
    ensures AnySetChosen(o) && ParseUsize(Trim(o.length)).Some? && ParseUsize(Trim(o.length)).value > MaxPasswordLength
            ==> r == Err(Crypto(TooLongMessage))
    ensures r.Err? ==> r.error.Crypto?
    ensures r.Ok? <==> && AnySetChosen(o) && ParseUsize(Trim(o.length)).Some?
                       && 1 <= ParseUsize(Trim(o.length)).value <= MaxPasswordLength
                       && Available(o) != []
    ensures r.Ok? ==> ParseUsize(Trim(o.length)) == Some(|r.value|)
    ensures r.Ok? ==> forall i :: 0 <= i < |r.value| ==> r.value[i] in Available(o)
  {
    if !AnySetChosen(o) then Err(Crypto(NoCharsetMessage))
    else
      match ParseUsize(Trim(o.length))
      case None => Err(Crypto(InvalidLengthMessage))
      case Some(length) =>
        if length < 1 then Err(Crypto(TooShortMessage))
        else if length > MaxPasswordLength then Err(Crypto(TooLongMessage))
        else
          var available := Available(o);
          if available == [] then Err(Crypto(NoCharsLeftMessage))
          else Ok(Draw(available, length, roll))
  }

  /** An error names the first check that failed: excluding every character is reported last. */
  lemma NoCharsLeftOnlyAfterLength(o: Options, roll: nat -> nat)
    requires Generated(o, roll) == Err(Crypto(NoCharsLeftMessage))
    ensures AnySetChosen(o) && Available(o) == []
    ensures ParseUsize(Trim(o.length)).Some? && 1 <= ParseUsize(Trim(o.length)).value <= MaxPasswordLength
  {
  }

  /** `chars.retain(|c| !exclude.contains(c))`. */
  method Retain(chars: seq<char>, exclude: string) returns (kept: seq<char>)
    ensures kept == Without(chars, exclude)
  {
    kept := [];
    var i := 0;
    while i < |chars|
      invariant 0 <= i <= |chars|
      invariant kept == Without(chars[..i], exclude)
    {
      assert chars[..i + 1][..i] == chars[..i];
      if chars[i] !in exclude {
        kept := kept + [chars[i]];
      }
      i := i + 1;
    }
    assert chars[..i] == chars;
  }

  /** The available characters, built as `generate_password` builds them: extend, then retain. */
  method AvailableChars(o: Options) returns (available: seq<char>)
    ensures available == Available(o)
  {
    var chars: seq<char> := [];
    if o.useUppercase {
      chars := chars + UppercaseChars;
    }
    assert chars == ExtendIf([], o.useUppercase, UppercaseChars);
    ghost var upper := chars;
    if o.useLowercase {
      chars := chars + LowercaseChars;
    }
    assert chars == ExtendIf(upper, o.useLowercase, LowercaseChars);
    ghost var lower := chars;
    if o.useDigits {
      chars := chars + DigitChars;
    }
    assert chars == ExtendIf(lower, o.useDigits, DigitChars);
    ghost var digits := chars;
    if o.useSpecial {
      chars := chars + SpecialChars;
    }
    assert chars == Chosen(o);
    available := Retain(chars, o.excludeChars);
  }

  /** The `(0..length).map(...).collect()` of `generate_password`: one draw per character. */
  method DrawPassword(available: seq<char>, length: nat, roll: nat -> nat) returns (password: string)
    requires available != []
    ensures password == Draw(available, length, roll)
  {
    password := [];
    var k := 0;
    while k < length
      invariant 0 <= k <= length && |password| == k
      invariant forall j :: 0 <= j < k ==> password[j] == available[roll(j) % |available|]
    {
      password := password + [available[roll(k) % |available|]];
      k := k + 1;
    }
  }

  /** `generate_password`, building the available characters and the password step by step. */
  method GeneratePassword(o: Options, roll: nat -> nat) returns (r: Result<string>)
    ensures r == Generated(o, roll)
  {
    if !o.useUppercase && !o.useLowercase && !o.useDigits && !o.useSpecial {
      return Err(Crypto(NoCharsetMessage));
    }
    var parsed := ParseUsize(Trim(o.length));
    if parsed.None? {
      return Err(Crypto(InvalidLengthMessage));
    }
    var length := parsed.value;
    if length < 1 {
      return Err(Crypto(TooShortMessage));
    }
    if length > MaxPasswordLength {
      return Err(Crypto(TooLongMessage));
    }

    var available := AvailableChars(o);
    if available == [] {
      return Err(Crypto(NoCharsLeftMessage));
    }

    var password := DrawPassword(available, length, roll);
    r := Ok(password);
  }
}
