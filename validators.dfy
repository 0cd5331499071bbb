/**
 * The string and value validators of src/utils/validators.ts. Every regular
 * expression is written out as a predicate over the characters of the text it
 * is tested against; the `{isValid, message?}` results become `Validation`.
 */
module Validators {
  import opened Wrappers
  import opened JsStrings

  /** `{ isValid: boolean; message?: string }` */
  datatype Validation = Validation(isValid: bool, message: Option<string>)

  const Valid := Validation(true, None)

  function Invalid(message: string): Validation {
    Validation(false, Some(message))
  }

  // ---------------------------------------------------------------------
  // Ordered rule checks: the shape shared by validatePassword,
  // validateUsername and validateLength.

  /** One early-return check: when `holds` is false the validator stops with `message`. */
  datatype Rule = Rule(holds: string -> bool, message: string)

  /** Reference reading of a chain of early returns: the message of the first rule that fails. */
  function FirstFailure(rules: seq<Rule>, s: string): Validation {
    if rules == [] then Valid
    else if !rules[0].holds(s) then Invalid(rules[0].message)
    else FirstFailure(rules[1..], s)
  }

  /**
   * A chain of checks accepts exactly when every rule holds, carries a message
   * exactly when it rejects, and the message it carries is that of a rule that
   * fails while every earlier rule holds.
   */
  lemma {:induction false} FirstFailureSpec(rules: seq<Rule>, s: string)
    ensures FirstFailure(rules, s).isValid <==> forall k :: 0 <= k < |rules| ==> rules[k].holds(s)
    ensures FirstFailure(rules, s).isValid <==> FirstFailure(rules, s).message.None?
    ensures !FirstFailure(rules, s).isValid ==>
              exists k :: 0 <= k < |rules| && !rules[k].holds(s)
                          && (forall j :: 0 <= j < k ==> rules[j].holds(s))
                          && FirstFailure(rules, s).message == Some(rules[k].message)
  {
    if rules != [] && rules[0].holds(s) {
      FirstFailureSpec(rules[1..], s);
      assert forall k :: 1 <= k < |rules| ==> rules[k] == rules[1..][k - 1];
      if !FirstFailure(rules, s).isValid {
        var k :| 0 <= k < |rules[1..]| && !rules[1..][k].holds(s)
                 && (forall j :: 0 <= j < k ==> rules[1..][j].holds(s))
                 && FirstFailure(rules[1..], s).message == Some(rules[1..][k].message);
        assert forall j :: 1 <= j < k + 1 ==> rules[j] == rules[1..][j - 1];
        assert !rules[k + 1].holds(s);
      }
    }
  }

  // ---------------------------------------------------------------------
  // Character classes

  predicate IsUpper(c: char) { 'A' <= c <= 'Z' }
  predicate IsLower(c: char) { 'a' <= c <= 'z' }

  /** `[!@#$%^&*(),.?":{}|<>]` */
  predicate IsSpecial(c: char) {
    c in "!@#$%^&*(),.?\":{}|<>"
  }

  /** `[a-zA-Z0-9_-]` */
  predicate IsUsernameChar(c: char) {
    IsUpper(c) || IsLower(c) || IsAsciiDigit(c) || c == '_' || c == '-'
  }

  /** `[^\s@]` */
  predicate IsAddressChar(c: char) {
    !IsWhiteSpace(c) && c != '@'
  }

  /** `[\d\s-]` */
  predicate IsPhoneChar(c: char) {
    IsAsciiDigit(c) || IsWhiteSpace(c) || c == '-'
  }

  predicate HasUpper(s: string) { exists i :: 0 <= i < |s| && IsUpper(s[i]) }
  predicate HasLower(s: string) { exists i :: 0 <= i < |s| && IsLower(s[i]) }
  predicate HasDigit(s: string) { exists i :: 0 <= i < |s| && IsAsciiDigit(s[i]) }
  predicate HasSpecial(s: string) { exists i :: 0 <= i < |s| && IsSpecial(s[i]) }

  // ---------------------------------------------------------------------
  // validateTime: /^([01]?[0-9]|2[0-3]):[0-5][0-9]$/

  /** `:[0-5][0-9]` filling s from position k to its end. */
  predicate MinutesFrom(s: string, k: nat)
    requires k + 3 == |s|
  {
    s[k] == ':' && '0' <= s[k + 1] <= '5' && IsAsciiDigit(s[k + 2])
  }

  /** `[01]?[0-9]|2[0-3]` followed by `:[0-5][0-9]`, anchored at both ends. */
  predicate ValidateTime(s: string)
    ensures ValidateTime(s) ==> (|s| == 4 || |s| == 5) && s[|s| - 3] == ':' && IsAsciiDigit(s[|s| - 1])
  {
    || (|s| == 4 && IsAsciiDigit(s[0]) && MinutesFrom(s, 1))
    || (|s| == 5
        && (((s[0] == '0' || s[0] == '1') && IsAsciiDigit(s[1])) || (s[0] == '2' && '0' <= s[1] <= '3'))
        && MinutesFrom(s, 2))
  }

  /** The examples of the time rule: a one-digit hour is accepted, an hour of 24, a one-digit minute and words are not. */
  lemma TimeExamples()
    ensures ValidateTime("9:05") && ValidateTime("09:05") && ValidateTime("23:59") && ValidateTime("00:00")
    ensures !ValidateTime("24:00") && !ValidateTime("9:5") && !ValidateTime("noon") && !ValidateTime("12:60")
  {
  }

  // ---------------------------------------------------------------------
  // validatePassword

  const PasswordTooShort := "Password must be at least 8 characters long"
  const PasswordNoUpper := "Password must contain at least one uppercase letter"
  const PasswordNoLower := "Password must contain at least one lowercase letter"
  const PasswordNoDigit := "Password must contain at least one number"
  const PasswordNoSpecial := "Password must contain at least one special character"

  /**
   * The password rules in the order the code checks them: the length first,
   * then an uppercase letter, a lowercase letter, a digit, a special character.
   */
  function PasswordRules(): seq<Rule> {
    [ Rule(p => |p| >= 8, PasswordTooShort),
      Rule(HasUpper, PasswordNoUpper),
      Rule(HasLower, PasswordNoLower),
      Rule(HasDigit, PasswordNoDigit),
      Rule(HasSpecial, PasswordNoSpecial) ]
  }

  function ValidatePassword(password: string): (r: Validation)
    ensures r.isValid <==> r.message.None?
    ensures r.isValid <==>
              |password| >= 8 && HasUpper(password) && HasLower(password)
              && HasDigit(password) && HasSpecial(password)
    ensures r.message == Some(PasswordTooShort) <==> |password| < 8
    ensures r.message == Some(PasswordNoUpper) <==> |password| >= 8 && !HasUpper(password)
    ensures r.message == Some(PasswordNoLower) <==>
              |password| >= 8 && HasUpper(password) && !HasLower(password)
    ensures r.message == Some(PasswordNoDigit) <==>
              |password| >= 8 && HasUpper(password) && HasLower(password) && !HasDigit(password)
    ensures r.message == Some(PasswordNoSpecial) <==>
              |password| >= 8 && HasUpper(password) && HasLower(password)
              && HasDigit(password) && !HasSpecial(password)
  {
    if |password| < 8 then Invalid(PasswordTooShort)
    else if !HasUpper(password) then Invalid(PasswordNoUpper)
    else if !HasLower(password) then Invalid(PasswordNoLower)
    else if !HasDigit(password) then Invalid(PasswordNoDigit)
    else if !HasSpecial(password) then Invalid(PasswordNoSpecial)
    else Valid
  }

  /** validatePassword is the first-failure reading of the five password rules. */
  lemma PasswordIsFirstFailure(password: string)
    ensures ValidatePassword(password) == FirstFailure(PasswordRules(), password)
  {
    var rs := PasswordRules();
    var p := password;
    assert FirstFailure(rs[4..], p) == if !HasSpecial(p) then Invalid(PasswordNoSpecial) else Valid by {
      assert rs[4..][1..] == [];
    }
    assert FirstFailure(rs[3..], p) == if !HasDigit(p) then Invalid(PasswordNoDigit) else FirstFailure(rs[4..], p) by {
      assert rs[3..][1..] == rs[4..];
    }
    assert FirstFailure(rs[2..], p) == if !HasLower(p) then Invalid(PasswordNoLower) else FirstFailure(rs[3..], p) by {
      assert rs[2..][1..] == rs[3..];
    }
    assert FirstFailure(rs[1..], p) == if !HasUpper(p) then Invalid(PasswordNoUpper) else FirstFailure(rs[2..], p) by {
      assert rs[1..][1..] == rs[2..];
    }
  }

  lemma PasswordExamples()
    ensures ValidatePassword("Abcdef1!").isValid
    ensures ValidatePassword("Ab1!").message == Some(PasswordTooShort)
  {
    var p := "Abcdef1!";
    assert IsUpper(p[0]) && IsLower(p[1]) && IsAsciiDigit(p[6]) && IsSpecial(p[7]);
  }

  // ---------------------------------------------------------------------
  // validateUsername

  const UsernameTooShort := "Username must be at least 3 characters long"
  const UsernameTooLong := "Username cannot be longer than 30 characters"
  const UsernameBadChars := "Username can only contain letters, numbers, underscores, and hyphens"

  /** `/^[a-zA-Z0-9_-]+$/` */
  predicate UsernameCharset(s: string) {
    |s| > 0 && forall i :: 0 <= i < |s| ==> IsUsernameChar(s[i])
  }

  function UsernameRules(): seq<Rule> {
    [ Rule(u => |u| >= 3, UsernameTooShort),
      Rule(u => |u| <= 30, UsernameTooLong),
      Rule(UsernameCharset, UsernameBadChars) ]
  }

  function ValidateUsername(username: string): (r: Validation)
    ensures r.isValid <==> r.message.None?
    ensures r.isValid <==>
              3 <= |username| <= 30 && forall i :: 0 <= i < |username| ==> IsUsernameChar(username[i])
    ensures r.message == Some(UsernameTooShort) <==> |username| < 3
    ensures r.message == Some(UsernameTooLong) <==> |username| > 30
    ensures r.message == Some(UsernameBadChars) <==> 3 <= |username| <= 30 && !UsernameCharset(username)
  {
    if |username| < 3 then Invalid(UsernameTooShort)
    else if |username| > 30 then Invalid(UsernameTooLong)
    else if !UsernameCharset(username) then Invalid(UsernameBadChars)
    else Valid
  }

  /** validateUsername is the first-failure reading of its three rules. */
  lemma UsernameIsFirstFailure(username: string)
    ensures ValidateUsername(username) == FirstFailure(UsernameRules(), username)
  {
    var rs := UsernameRules();
    var u := username;
    assert FirstFailure(rs[2..], u) == if !UsernameCharset(u) then Invalid(UsernameBadChars) else Valid by {
      assert rs[2..][1..] == [];
    }
    assert FirstFailure(rs[1..], u) == if |u| > 30 then Invalid(UsernameTooLong) else FirstFailure(rs[2..], u) by {
      assert rs[1..][1..] == rs[2..];
    }
  }

  // ---------------------------------------------------------------------
  // validateEmail: /^[^\s@]+@[^\s@]+\.[^\s@]+$/ on email.trim()

  predicate AllAddressChars(s: string) {
    forall i :: 0 <= i < |s| ==> IsAddressChar(s[i])
  }

  /** `[^\s@]+\.[^\s@]+`: no whitespace or '@', and a '.' that is neither the first nor the last character. */
  predicate DomainShape(d: string) {
    AllAddressChars(d) && exists k :: 0 < k < |d| - 1 && d[k] == '.'
  }

  /** The whole pattern against text already trimmed. */
  predicate EmailShape(t: string) {
    exists i :: 0 < i < |t| && t[i] == '@' && AllAddressChars(t[..i]) && DomainShape(t[i + 1..])
  }

  /** An accepted address is at least five characters long once trimmed, as in "a@b.c". */
  predicate ValidateEmail(email: string)
    ensures ValidateEmail(email) ==> |Trim(email)| >= 5
  {
    EmailShape(Trim(email))
  }

  function Count(s: string, c: char): nat {
    if s == [] then 0 else (if s[0] == c then 1 else 0) + Count(s[1..], c)
  }

  lemma {:induction false} CountAbsent(s: string, c: char)
    requires forall i :: 0 <= i < |s| ==> s[i] != c
    ensures Count(s, c) == 0
  {
    if s != [] {
      CountAbsent(s[1..], c);
    }
  }

  lemma {:induction false} CountConcat(s: string, t: string, c: char)
    ensures Count(s + t, c) == Count(s, c) + Count(t, c)
  {
    if s == [] {
      assert s + t == t;
    } else {
      assert (s + t)[0] == s[0];
      assert (s + t)[1..] == s[1..] + t;
      CountConcat(s[1..], t, c);
    }
  }

  lemma {:induction false} CountPositive(s: string, c: char, i: int)
    requires 0 <= i < |s| && s[i] == c
    ensures Count(s, c) > 0
  {
    if i > 0 {
      CountPositive(s[1..], c, i - 1);
    }
  }

  /** Splitting a text at one occurrence of c: c occurs once in all exactly when it occurs nowhere else. */
  lemma CountSplit(t: string, c: char, i: int)
    requires 0 <= i < |t| && t[i] == c
    ensures Count(t, c) == Count(t[..i], c) + 1 + Count(t[i + 1..], c)
  {
    assert t == t[..i] + [t[i]] + t[i + 1..];
    CountConcat(t[..i] + [t[i]], t[i + 1..], c);
    CountConcat(t[..i], [t[i]], c);
  }

  /**
   * The pattern, read as a description: the trimmed text has no whitespace and
   * exactly one '@', which is not its first character, and after the '@' comes
   * a domain with a '.' that is neither its first nor its last character.
   */
  lemma EmailCharacterization(t: string)
    ensures EmailShape(t) <==>
              && (forall i :: 0 <= i < |t| ==> !IsWhiteSpace(t[i]))
              && Count(t, '@') == 1
              && exists i, k :: 0 < i && i + 1 < k < |t| - 1 && t[i] == '@' && t[k] == '.'
  {
    if EmailShape(t) {
      EmailShapeFacts(t);
    }
    if && (forall i :: 0 <= i < |t| ==> !IsWhiteSpace(t[i]))
       && Count(t, '@') == 1
       && exists i, k :: 0 < i && i + 1 < k < |t| - 1 && t[i] == '@' && t[k] == '.'
    {
      FactsEmailShape(t);
    }
  }

  lemma EmailShapeFacts(t: string)
    requires EmailShape(t)
    ensures forall i :: 0 <= i < |t| ==> !IsWhiteSpace(t[i])
    ensures Count(t, '@') == 1
    ensures exists i, k :: 0 < i && i + 1 < k < |t| - 1 && t[i] == '@' && t[k] == '.'
  {
    var i :| 0 < i < |t| && t[i] == '@' && AllAddressChars(t[..i]) && DomainShape(t[i + 1..]);
    var d := t[i + 1..];
    CountSplit(t, '@', i);
    CountAbsent(t[..i], '@');
    CountAbsent(d, '@');
    NoWhiteSpaceAround(t, i);
    var k :| 0 < k < |d| - 1 && d[k] == '.';
    assert t[i + 1 + k] == '.';
  }

  /** Address characters on both sides of a separator that is not whitespace leave no whitespace at all. */
  lemma NoWhiteSpaceAround(t: string, i: int)
    requires 0 <= i < |t| && !IsWhiteSpace(t[i])
    requires AllAddressChars(t[..i]) && AllAddressChars(t[i + 1..])
    ensures forall j :: 0 <= j < |t| ==> !IsWhiteSpace(t[j])
  {
    forall j | 0 <= j < |t| ensures !IsWhiteSpace(t[j]) {
      if j < i { assert t[j] == t[..i][j]; } else if j > i { assert t[j] == t[i + 1..][j - i - 1]; }
    }
  }

  lemma FactsEmailShape(t: string)
    requires forall i :: 0 <= i < |t| ==> !IsWhiteSpace(t[i])
    requires Count(t, '@') == 1
    requires exists i, k :: 0 < i && i + 1 < k < |t| - 1 && t[i] == '@' && t[k] == '.'
    ensures EmailShape(t)
  {
    var i, k :| 0 < i && i + 1 < k < |t| - 1 && t[i] == '@' && t[k] == '.';
    var d := t[i + 1..];
    CountSplit(t, '@', i);
    forall j | 0 <= j < i ensures IsAddressChar(t[..i][j]) {
      if t[j] == '@' { CountPositive(t[..i], '@', j); }
    }
    forall j | 0 <= j < |d| ensures IsAddressChar(d[j]) {
      if d[j] == '@' { CountPositive(d, '@', j); }
      assert d[j] == t[i + 1 + j];
    }
    assert d[k - i - 1] == '.';
    assert DomainShape(d);
  }

  lemma EmailExamples()
    ensures EmailShape("a@b.co")
    ensures !EmailShape("a@b") && !EmailShape("a@b.") && !EmailShape("@b.co")
  {
    assert "a@b.co"[..1] == "a" && "a@b.co"[2..] == "b.co";
    assert DomainShape("b.co") by { assert "b.co"[1] == '.'; }
  }

  // ---------------------------------------------------------------------
  // validatePhone: /^\+?[\d\s-]{10,}$/ on phone.trim()

  /** What follows the optional leading '+'. */
  function PhoneBody(t: string): (b: string)
    ensures b == t || (t != [] && t[0] == '+' && b == t[1..])
  {
    if t != [] && t[0] == '+' then t[1..] else t
  }

  predicate PhoneShape(t: string) {
    var b := PhoneBody(t);
    |b| >= 10 && forall i :: 0 <= i < |b| ==> IsPhoneChar(b[i])
  }

  predicate ValidatePhone(phone: string)
    ensures ValidatePhone(phone) ==> |Trim(phone)| >= 10
  {
    PhoneShape(Trim(phone))
  }

  /**
   * An accepted number, once trimmed, is an optional '+' and then at least ten
   * characters each of which is a digit, whitespace or '-'; a '+' anywhere but
   * first is rejected, since '+' is not one of those characters.
   */
  lemma PhoneCharacterization(phone: string)
    ensures ValidatePhone(phone) <==>
              || (|Trim(phone)| >= 10 && forall i :: 0 <= i < |Trim(phone)| ==> IsPhoneChar(Trim(phone)[i]))
              || (|Trim(phone)| >= 11 && Trim(phone)[0] == '+'
                  && forall i :: 1 <= i < |Trim(phone)| ==> IsPhoneChar(Trim(phone)[i]))
    ensures ValidatePhone(phone) ==> forall i :: 0 < i < |Trim(phone)| ==> Trim(phone)[i] != '+'
  {
    var t := Trim(phone);
    if t != [] && t[0] == '+' {
      assert forall i :: 1 <= i < |t| ==> t[i] == t[1..][i - 1];
    }
  }

  lemma PhoneExamples()
    ensures PhoneShape("+84 912-345-678") && PhoneShape("0912345678")
    ensures !PhoneShape("12345") && !PhoneShape("091234567a") && !PhoneShape("++8491234567")
  {
    assert PhoneBody("091234567a")[9] == 'a';
    assert PhoneBody("++8491234567")[0] == '+';
  }

  // ---------------------------------------------------------------------
  // validateRange, validateLength, validateFileSize (numbers taken as integers)

  /** Inclusive at both ends; nothing passes an empty range, and a one-point range admits only that point. */
  predicate ValidateRange(value: int, min: int, max: int)
    ensures ValidateRange(value, min, max) ==> min <= max
    ensures min == max ==> (ValidateRange(value, min, max) <==> value == min)
  {
    value >= min && value <= max
  }

  function LengthTooShort(minLength: int): string {
    "Must be at least " + IntToDecimal(minLength) + " characters long"
  }

  function LengthTooLong(maxLength: int): string {
    "Cannot be longer than " + IntToDecimal(maxLength) + " characters"
  }

  function ValidateLength(str: string, minLength: int, maxLength: int): (r: Validation)
    ensures r.isValid <==> r.message.None?
    ensures r.isValid <==> ValidateRange(|str|, minLength, maxLength)
    ensures |str| < minLength ==> r.message == Some(LengthTooShort(minLength))
    ensures minLength <= |str| && |str| > maxLength ==> r.message == Some(LengthTooLong(maxLength))
  {
    if |str| < minLength then Invalid(LengthTooShort(minLength))
    else if |str| > maxLength then Invalid(LengthTooLong(maxLength))
    else Valid
  }

  function LengthRules(minLength: int, maxLength: int): seq<Rule> {
    [ Rule(s => |s| >= minLength, LengthTooShort(minLength)),
      Rule(s => |s| <= maxLength, LengthTooLong(maxLength)) ]
  }

  /** validateLength is the first-failure reading of its two bounds. */
  lemma LengthIsFirstFailure(str: string, minLength: int, maxLength: int)
    ensures ValidateLength(str, minLength, maxLength) == FirstFailure(LengthRules(minLength, maxLength), str)
  {
    var rs := LengthRules(minLength, maxLength);
    assert FirstFailure(rs[1..], str) == if |str| > maxLength then Invalid(LengthTooLong(maxLength)) else Valid by {
      assert rs[1..][1..] == [];
    }
  }

  /** The bound can be read back from either message: different bounds give different texts. */
  lemma LengthMessagesInjective(m: int, n: int)
    ensures LengthTooShort(m) == LengthTooShort(n) ==> m == n
    ensures LengthTooLong(m) == LengthTooLong(n) ==> m == n
  {
    var sm, sn := LengthTooShort(m), LengthTooShort(n);
    if sm == sn {
      assert sm[17..|sm| - 16] == IntToDecimal(m);
      assert sn[17..|sn| - 16] == IntToDecimal(n);
      IntToDecimalInjective(m, n);
    }
    var lm, ln := LengthTooLong(m), LengthTooLong(n);
    if lm == ln {
      assert lm[22..|lm| - 11] == IntToDecimal(m);
      assert ln[22..|ln| - 11] == IntToDecimal(n);
      IntToDecimalInjective(m, n);
    }
  }

  /** A text that is both too short and too long (min > max) is reported as too short. */
  lemma LengthShortBeforeLong(str: string, minLength: int, maxLength: int)
    requires |str| < minLength && |str| > maxLength
    ensures ValidateLength(str, minLength, maxLength).message == Some(LengthTooShort(minLength))
    ensures LengthTooShort(minLength) != LengthTooLong(maxLength)
  {
    assert LengthTooShort(minLength)[0] == 'M' && LengthTooLong(maxLength)[0] == 'C';
  }

  /** validateUsername's length rules are validateLength with bounds 3 and 30, apart from the wording. */
  lemma UsernameLengthIsLength(username: string)
    ensures ValidateUsername(username).message == Some(UsernameTooShort) <==>
              ValidateLength(username, 3, 30).message == Some(LengthTooShort(3))
    ensures ValidateUsername(username).message == Some(UsernameTooLong) <==>
              ValidateLength(username, 3, 30).message == Some(LengthTooLong(30))
    ensures ValidateUsername(username).isValid ==> ValidateLength(username, 3, 30).isValid
  {
    assert LengthTooShort(3) != LengthTooLong(30) by {
      assert LengthTooShort(3)[0] == 'M' && LengthTooLong(30)[0] == 'C';
    }
  }

  /** The limit itself is allowed; only a larger size is refused. */
  predicate ValidateFileSize(fileSize: int, maxSize: int)
    ensures fileSize == maxSize ==> ValidateFileSize(fileSize, maxSize)
    ensures fileSize > maxSize ==> !ValidateFileSize(fileSize, maxSize)
  {
    fileSize <= maxSize
  }

  /** A size check has no lower bound: it is the range check from the size itself up to the limit, and any smaller size passes too. */
  lemma FileSizeIsUpperBound(fileSize: int, smaller: int, maxSize: int)
    requires smaller <= fileSize
    ensures ValidateFileSize(fileSize, maxSize) <==> ValidateRange(fileSize, fileSize, maxSize)
    ensures ValidateFileSize(fileSize, maxSize) ==> ValidateFileSize(smaller, maxSize)
  {
  }

  // ---------------------------------------------------------------------
  // isEmpty and validateRequiredFields

  /** The JavaScript values `isEmpty` tells apart; numbers are taken as integers. */
  datatype JsValue =
    | Undefined
    | Null
    | Str(s: string)
    | Num(n: int)
    | Bool(b: bool)
    | Arr(items: seq<JsValue>)
    | Obj(fields: map<string, JsValue>)
    | Func

  predicate IsEmpty(value: JsValue)
    ensures value == Str("") || value == Arr([]) || value == Obj(map[]) ==> IsEmpty(value)
    ensures IsEmpty(value) ==> !value.Num? && !value.Bool? && !value.Func?
  {
    match value
    case Undefined => true
    case Null => true
    case Str(s) => |Trim(s)| == 0
    case Arr(items) => |items| == 0
    case Obj(fields) => |fields| == 0
    case _ => false
  }

  /**
   * Empty means: null or undefined, a string of whitespace only, an array with
   * no items or an object with no keys. Zero, false and functions are never empty.
   */
  lemma IsEmptyCharacterization(value: JsValue)
    ensures IsEmpty(value) <==>
              || value.Undefined? || value.Null?
              || (value.Str? && forall i :: 0 <= i < |value.s| ==> IsWhiteSpace(value.s[i]))
              || (value.Arr? && value.items == [])
              || (value.Obj? && value.fields == map[])
    ensures !IsEmpty(Num(0)) && !IsEmpty(Bool(false)) && !IsEmpty(Func)
  {
    if value.Str? {
      TrimEmptyIffAllWhiteSpace(value.s);
    }
    if value.Obj? && |value.fields| == 0 {
      assert value.fields == map[];
    }
  }

  /** `obj[field]`: undefined when the key is absent. */
  function Lookup(obj: map<string, JsValue>, field: string): JsValue {
    if field in obj then obj[field] else Undefined
  }

  /** `requiredFields.filter(field => isEmpty(obj[field]))` */
  function MissingFields(obj: map<string, JsValue>, requiredFields: seq<string>): (r: seq<string>)
    ensures |r| <= |requiredFields|
  {
    if requiredFields == [] then []
    else (if IsEmpty(Lookup(obj, requiredFields[0])) then [requiredFields[0]] else [])
         + MissingFields(obj, requiredFields[1..])
  }

  /** `{ isValid, missingFields }` */
  datatype RequiredFieldsResult = RequiredFieldsResult(isValid: bool, missingFields: seq<string>)

  function ValidateRequiredFields(obj: map<string, JsValue>, requiredFields: seq<string>): (r: RequiredFieldsResult)
    ensures r.isValid <==> r.missingFields == []
  {
    var missing := MissingFields(obj, requiredFields);
    RequiredFieldsResult(|missing| == 0, missing)
  }

  /** `sub` is `s` with some positions dropped, order kept. */
  predicate IsSubsequence(sub: seq<string>, s: seq<string>)
    decreases |s|
  {
    if sub == [] then true
    else if s == [] then false
    else if sub[0] == s[0] then IsSubsequence(sub[1..], s[1..])
    else IsSubsequence(sub, s[1..])
  }

  /** Membership, absent keys and order of the missing list. */
  lemma {:induction false} MissingFieldsMembers(obj: map<string, JsValue>, requiredFields: seq<string>)
    ensures forall f :: f in MissingFields(obj, requiredFields) <==>
                          f in requiredFields && IsEmpty(Lookup(obj, f))
    ensures forall f :: f in requiredFields && f !in obj ==> f in MissingFields(obj, requiredFields)
    ensures IsSubsequence(MissingFields(obj, requiredFields), requiredFields)
  {
    if requiredFields != [] {
      var rest := requiredFields[1..];
      MissingFieldsMembers(obj, rest);
      assert requiredFields == [requiredFields[0]] + rest;
      var m := MissingFields(obj, requiredFields);
      if IsEmpty(Lookup(obj, requiredFields[0])) {
        assert m[1..] == MissingFields(obj, rest);
      } else {
        assert m == MissingFields(obj, rest);
        if m != [] {
          assert m[0] in MissingFields(obj, rest);
          assert m[0] != requiredFields[0];
        }
      }
    }
  }

  /** How often each name occurs in the missing list. */
  lemma {:induction false} MissingFieldsMultiplicity(obj: map<string, JsValue>, requiredFields: seq<string>)
    ensures forall f :: multiset(MissingFields(obj, requiredFields))[f] ==
                          if IsEmpty(Lookup(obj, f)) then multiset(requiredFields)[f] else 0
  {
    if requiredFields != [] {
      var rest := requiredFields[1..];
      MissingFieldsMultiplicity(obj, rest);
      assert requiredFields == [requiredFields[0]] + rest;
      assert multiset(requiredFields) == multiset([requiredFields[0]]) + multiset(rest);
    }
  }

  /**
   * The missing fields are exactly the required fields whose value is empty
   * (an absent key counts as empty), listed in the order they were required,
   * each as many times as it is required.
   */
  lemma MissingFieldsSpec(obj: map<string, JsValue>, requiredFields: seq<string>)
    ensures forall f :: f in MissingFields(obj, requiredFields) <==>
                          f in requiredFields && IsEmpty(Lookup(obj, f))
    ensures forall f :: f in requiredFields && f !in obj ==> f in MissingFields(obj, requiredFields)
    ensures IsSubsequence(MissingFields(obj, requiredFields), requiredFields)
    ensures forall f :: multiset(MissingFields(obj, requiredFields))[f] ==
                          if IsEmpty(Lookup(obj, f)) then multiset(requiredFields)[f] else 0
  {
    MissingFieldsMembers(obj, requiredFields);
    MissingFieldsMultiplicity(obj, requiredFields);
  }

  /** The record passes exactly when no required field is empty. */
  lemma RequiredFieldsValidIff(obj: map<string, JsValue>, requiredFields: seq<string>)
    ensures ValidateRequiredFields(obj, requiredFields).isValid <==>
              forall i :: 0 <= i < |requiredFields| ==> !IsEmpty(Lookup(obj, requiredFields[i]))
  {
    MissingFieldsSpec(obj, requiredFields);
    var m := MissingFields(obj, requiredFields);
    if m != [] {
      assert m[0] in m;
    }
  }

  // ---------------------------------------------------------------------
  // validateFileType: fileName.split('.').pop()?.toLowerCase() || ''

  /** The last piece of `s.split('.')`: the text after the last '.', or all of s when it has none. */
  function LastSegment(s: string): (r: string)
    ensures |r| <= |s| && r == s[|s| - |r|..]
    ensures forall i :: 0 <= i < |r| ==> r[i] != '.'
    ensures |r| < |s| ==> s[|s| - |r| - 1] == '.'
  {
    if s == [] then []
    else if s[|s| - 1] == '.' then []
    else LastSegment(s[..|s| - 1]) + [s[|s| - 1]]
  }

  /** The extension the code compares: the last segment, lower-cased. */
  /** The extension has no '.' and no upper-case letter, and is no longer than the name. */
  function Extension(fileName: string): (r: string)
    ensures |r| <= |fileName|
    ensures forall i :: 0 <= i < |r| ==> r[i] != '.' && !IsUpper(r[i])
  {
    ToLowerCase(LastSegment(fileName))
  }

  /** No name passes an empty list. */
  predicate ValidateFileType(fileName: string, allowedExtensions: seq<string>)
    ensures allowedExtensions == [] ==> !ValidateFileType(fileName, allowedExtensions)
  {
    Extension(fileName) in allowedExtensions
  }

  /** The comparison is case-sensitive after lower-casing the name, so a list of entries that all hold an upper-case letter accepts nothing. */
  lemma UpperCaseEntriesNeverMatch(fileName: string, allowedExtensions: seq<string>)
    requires forall k :: 0 <= k < |allowedExtensions| ==> HasUpper(allowedExtensions[k])
    ensures !ValidateFileType(fileName, allowedExtensions)
  {
  }

  /**
   * The extension is the lower-cased text after the last '.': a name without
   * '.' is its own extension, and a name ending in '.' has the empty extension.
   */
  lemma ExtensionSpec(fileName: string)
    ensures (forall i :: 0 <= i < |fileName| ==> fileName[i] != '.') ==> Extension(fileName) == ToLowerCase(fileName)
    ensures fileName != [] && fileName[|fileName| - 1] == '.' ==> Extension(fileName) == []
    ensures forall k ::
              (0 <= k < |fileName| && fileName[k] == '.' && (forall j :: k < j < |fileName| ==> fileName[j] != '.'))
              ==> Extension(fileName) == ToLowerCase(fileName[k + 1..])
  {
    var r := LastSegment(fileName);
    if forall i :: 0 <= i < |fileName| ==> fileName[i] != '.' {
      assert |r| == |fileName|;
    }
    forall k | 0 <= k < |fileName| && fileName[k] == '.'
                && (forall j :: k < j < |fileName| ==> fileName[j] != '.')
      ensures r == fileName[k + 1..]
    {
      var n := |fileName|;
      assert k < n - |r|;
    }
  }

  lemma FileTypeExamples()
    ensures ValidateFileType("a.B", ["b", "c"])
    ensures !ValidateFileType("a.B", ["B"])
  {
    assert "a.B"[..2] == "a.";
    assert LastSegment("a.B") == "B";
    assert ToLowerCase("B") == "b";
    assert Extension("a.B") == "b";
  }
}
