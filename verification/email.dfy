/** The email custom type (packages/advanced-types/src/types/email.ts). The regular expression
    is a parameter: only its verdict on the whole string matters here. */
module Email {
  import opened Values
  import Decoding
  import Validator
  import Paths

  /** `String.prototype.split` with a one-character separator: the pieces between the
      separators, so a string with `n` separators has `n + 1` pieces. */
  function Split(s: string, separator: char): (parts: seq<string>)
    ensures |parts| == Count(s, separator) + 1
  {
    if s == [] then [""]
    else
      var rest := Split(s[1..], separator);
      if s[0] == separator then [""] + rest else [[s[0]] + rest[0]] + rest[1..]
  }

  /** `Array.prototype.join`. */
  function JoinWith(parts: seq<string>, separator: char): string
    requires |parts| >= 1
  {
    if |parts| == 1 then parts[0] else parts[0] + [separator] + JoinWith(parts[1..], separator)
  }

  function Count(s: string, c: char): nat
  {
    if s == [] then 0 else (if s[0] == c then 1 else 0) + Count(s[1..], c)
  }

  /** Splitting loses nothing: joining the pieces back gives the string, and no piece holds
      the separator. */
  lemma SplitJoin(s: string, separator: char)
    ensures JoinWith(Split(s, separator), separator) == s
    ensures forall i :: 0 <= i < |Split(s, separator)| ==> separator !in Split(s, separator)[i]
  {
    JoinSplit(s, separator);
    SplitPiecesLackSeparator(s, separator);
  }

  lemma {:induction false} JoinSplit(s: string, separator: char)
    ensures JoinWith(Split(s, separator), separator) == s
  {
    if s != [] {
      var rest := Split(s[1..], separator);
      JoinSplit(s[1..], separator);
      if s[0] == separator {
        assert ([""] + rest)[1..] == rest;
      } else {
        var parts := [[s[0]] + rest[0]] + rest[1..];
        assert parts[1..] == rest[1..];
        if |rest| > 1 {
          assert rest == [rest[0]] + rest[1..];
        }
      }
    }
  }

  lemma {:induction false} SplitPiecesLackSeparator(s: string, separator: char)
    ensures forall i :: 0 <= i < |Split(s, separator)| ==> separator !in Split(s, separator)[i]
  {
    if s != [] {
      var rest := Split(s[1..], separator);
      SplitPiecesLackSeparator(s[1..], separator);
      var parts := Split(s, separator);
      forall i | 0 <= i < |parts| ensures separator !in parts[i] {
        if s[0] == separator {
          if i > 0 { assert parts[i] == rest[i - 1]; }
        } else if i > 0 {
          assert parts[i] == rest[i];
        }
      }
    }
  }

  const NoAtMessage := "Invalid email (no @ present)"
  const AccountMessage := "Invalid email (account is longer than 63 characters)"
  const DomainMessage := "Invalid email (domain is longer than 254 characters)"
  const InvalidMessage := "Invalid email"

  /** Whether a domain label is too long (`part.length > 63`, in UTF-16 code units). */
  predicate LongLabel(part: string)
  {
    Utf16Length(part) > 63
  }

  /** `validateEmail`: exactly one `@`, an account of at most 64 UTF-16 code units, an address
      of at most 255, no dot-separated label of the address longer than 63, and the regular
      expression; the first check that fails is the only error. */
  function ValidateEmail(value: string, emailRegex: string -> bool): (r: Validator.Result)
    ensures r.Succeed? <==>
      && Count(value, '@') == 1
      && Utf16Length(Split(value, '@')[0]) <= 64 && Utf16Length(Split(value, '@')[1]) <= 255
      && (forall part :: part in Split(Split(value, '@')[1], '.') ==> !LongLabel(part))
      && emailRegex(value)
    ensures r.Fail? ==> r == Validator.BaseFail(FailureMessage(value), Str(value))
  {
    var emailParts := Split(value, '@');
    if |emailParts| != 2 then Validator.BaseFail(NoAtMessage, Str(value))
    else
      var account := emailParts[0];
      var address := emailParts[1];
      if Utf16Length(account) > 64 then Validator.BaseFail(AccountMessage, Str(value))
      else if Utf16Length(address) > 255 then Validator.BaseFail(DomainMessage, Str(value))
      else
        var domainParts := Split(address, '.');
        if (exists part :: part in domainParts && LongLabel(part)) || !emailRegex(value) then
          Validator.BaseFail(InvalidMessage, Str(value))
        else Validator.Succeed
  }

  /** The message of the first check a failing address fails, in the order the checks run. */
  function FailureMessage(value: string): string
  {
    if Count(value, '@') != 1 then NoAtMessage
    else if Utf16Length(Split(value, '@')[0]) > 64 then AccountMessage
    else if Utf16Length(Split(value, '@')[1]) > 255 then DomainMessage
    else InvalidMessage
  }

  lemma {:induction false} SplitAtSeparator(s: string, separator: char, i: nat)
    requires i < |s| && s[i] == separator && separator !in s[..i] && separator !in s[i + 1..]
    ensures Split(s, separator) == [s[..i], s[i + 1..]]
  {
    if i == 0 {
      NoSeparatorSplit(s[1..], separator);
      assert s[1..] == s[i + 1..];
    } else {
      assert s[1..][..i - 1] == s[1..i];
      assert s[1..][i..] == s[i + 1..];
      SplitAtSeparator(s[1..], separator, i - 1);
      assert [s[0]] + s[1..i] == s[..i];
    }
  }

  lemma {:induction false} NoSeparatorSplit(s: string, separator: char)
    requires separator !in s
    ensures Split(s, separator) == [s]
  {
    if s != [] {
      assert s[0] != separator by { assert s[0] in s; }
      assert separator !in s[1..];
      NoSeparatorSplit(s[1..], separator);
      assert [s[0]] + s[1..] == s;
    }
  }

  /** For an address with its only `@` at position `i`, the account is what precedes it and the
      address what follows it, so the length limits (in UTF-16 code units) apply to those two
      parts. */
  lemma AccountAndAddress(value: string, i: nat)
    requires i < |value| && value[i] == '@' && '@' !in value[..i] && '@' !in value[i + 1..]
    ensures Split(value, '@') == [value[..i], value[i + 1..]]
    ensures Utf16Length(value[..i]) > 64 ==> FailureMessage(value) == AccountMessage
    ensures Utf16Length(value[..i]) <= 64 && Utf16Length(value[i + 1..]) > 255 ==> FailureMessage(value) == DomainMessage
  {
    SplitAtSeparator(value, '@', i);
  }

  /** `decode`: any string is accepted unchanged; anything else fails at the root. */
  function Decode(value: Value): (r: Decoding.Result<string>)
    ensures r.Success? <==> value.Str?
    ensures r.Success? ==> r.value == value.s
    ensures r.Failure? ==> r.errors == [Decoding.Error("Expected a mail string", value, Paths.Empty())]
  {
    if value.Str? then Decoding.Success(value.s) else Decoding.BaseFail("Expected a mail string", value)
  }

  /** `encode`: the identity. */
  function Encode(email: string): (v: Value)
    ensures Decode(v) == Decoding.Success(email)
  {
    Str(email)
  }

  lemma DecodeEncode(email: string)
    ensures Decode(Encode(email)) == Decoding.Success(email)
  {
  }

  /** The custom type `email()` as the validator sees it: a string is checked by
      `validateEmail`. */
  function EmailType(emailRegex: string -> bool): (t: Validator.Type)
    ensures t.CustomType? && t.typeName == "email"
  {
    Validator.CustomType("email", (value: Value, options: Validator.Options) =>
      if value.Str? then ValidateEmail(value.s, emailRegex) else Validator.Succeed)
  }

  /** Validating against the email type is `validateEmail`, and reports at most one error. */
  lemma EmailTypeValidates(value: string, emailRegex: string -> bool, options: Validator.Options)
    ensures Validator.InternalValidate(EmailType(emailRegex), Str(value), options) == ValidateEmail(value, emailRegex)
    ensures Validator.InternalValidate(EmailType(emailRegex), Str(value), options).Fail? ==>
      |Validator.InternalValidate(EmailType(emailRegex), Str(value), options).errors| == 1
  {
  }
}
