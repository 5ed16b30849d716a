/** The demo of lab4sem/3 (Program.cs): a parser for `key:value` user records and the five
    validation rules built on the validator library. The regular expressions of the rules
    are written out as predicates over the characters. */
module UserRules {
  import opened Text
  import opened Validator

  /** `UserData`: four optional text fields, null (`None`) until an item sets them. */
  datatype UserData = UserData(username: Option<string>, fullname: Option<string>,
                               email: Option<string>, password: Option<string>)

  /** The four fields an item can set. */
  datatype Field = Username | Fullname | Email | Password

  /** The field named by a trimmed key, if it is one of the four keys of the `switch`. */
  function FieldOf(key: string): Option<Field>
  {
    if key == "username" then Some(Username)
    else if key == "fullname" then Some(Fullname)
    else if key == "email" then Some(Email)
    else if key == "password" then Some(Password)
    else None
  }

  /** The field an item sets and the value it sets it to, or `None` when the item is
      ignored (not exactly two `:`-separated parts, or an unknown key). */
  function Assignment(item: string): (r: Option<(Field, string)>)
    ensures r.Some? ==> Count(item, {':'}) == 1
    ensures r.Some? && r.value.1 != [] ==> !IsWhiteSpace(r.value.1[0])
  {
    var keyValue := Split(item, ':');
    if |keyValue| == 2 then
      match FieldOf(Trim(keyValue[0]))
      case Some(f) => Some((f, Trim(keyValue[1])))
      case None => None
    else None
  }

  /** The assignment each item of `data` makes, in order. */
  function Assignments(data: seq<string>): (r: seq<Option<(Field, string)>>)
    ensures |r| == |data|
  {
    seq(|data|, i requires 0 <= i < |data| => Assignment(data[i]))
  }

  /** The assignment sets field `f`. */
  predicate Sets(a: Option<(Field, string)>, f: Field) {
    a.Some? && a.value.0 == f
  }

  /** The value of field `f` after the assignments `assigns`: that of the last one setting `f`. */
  function LastValue(assigns: seq<Option<(Field, string)>>, f: Field): Option<string>
  {
    if assigns == [] then None
    else if Sets(assigns[|assigns| - 1], f) then Some(assigns[|assigns| - 1].value.1)
    else LastValue(assigns[..|assigns| - 1], f)
  }

  /** The record the assignments `assigns` build from an empty one. */
  function Record(assigns: seq<Option<(Field, string)>>): UserData
  {
    UserData(LastValue(assigns, Username), LastValue(assigns, Fullname),
             LastValue(assigns, Email), LastValue(assigns, Password))
  }

  /** The record with field `f` set to `v`. */
  function SetField(u: UserData, f: Field, v: string): UserData
  {
    match f
    case Username => u.(username := Some(v))
    case Fullname => u.(fullname := Some(v))
    case Email => u.(email := Some(v))
    case Password => u.(password := Some(v))
  }

  /** One more assignment changes the record by itself alone: a later item for a field
      overrides every earlier one and leaves the other fields alone. */
  lemma RecordAppend(assigns: seq<Option<(Field, string)>>, a: Option<(Field, string)>)
    ensures Record(assigns + [a]) == if a.None? then Record(assigns) else SetField(Record(assigns), a.value.0, a.value.1)
  {
    assert (assigns + [a])[..|assigns|] == assigns;
  }

  /** `ParseUserData`: fills a fresh record item by item. */
  method ParseUserData(data: seq<string>) returns (userData: UserData)
    ensures userData == Record(Assignments(data))
  {
    userData := UserData(None, None, None, None);
    for i := 0 to |data|
      invariant userData == Record(Assignments(data[..i]))
    {
      assert Assignments(data[..i + 1]) == Assignments(data[..i]) + [Assignment(data[i])];
      RecordAppend(Assignments(data[..i]), Assignment(data[i]));
      var keyValue := Split(data[i], ':');
      if |keyValue| == 2 {
        match FieldOf(Trim(keyValue[0]))
        case Some(Username) => userData := userData.(username := Some(Trim(keyValue[1])));
        case Some(Fullname) => userData := userData.(fullname := Some(Trim(keyValue[1])));
        case Some(Email) => userData := userData.(email := Some(Trim(keyValue[1])));
        case Some(Password) => userData := userData.(password := Some(Trim(keyValue[1])));
        case None =>
      }
    }
    assert data[..|data|] == data;
  }

  /** An item is used exactly when it holds one colon and its trimmed key is one of the four
      keys; the value stored is then the trimmed text after the colon. */
  lemma AssignmentIff(item: string)
    ensures Assignment(item).Some? <==>
              Count(item, {':'}) == 1 && FieldOf(Trim(Split(item, ':')[0])).Some?
    ensures Assignment(item).Some? ==>
              Assignment(item).value == (FieldOf(Trim(Split(item, ':')[0])).value,
                                         Trim(Split(item, ':')[1]))
  {
    SplitAnyCount(item, {':'});
  }

  /** A field stays null exactly when no assignment sets it. */
  lemma {:induction false} LastValueNone(assigns: seq<Option<(Field, string)>>, f: Field)
    ensures LastValue(assigns, f).None? <==> forall i :: 0 <= i < |assigns| ==> !Sets(assigns[i], f)
  {
    if assigns != [] {
      var init := assigns[..|assigns| - 1];
      LastValueNone(init, f);
      assert forall i :: 0 <= i < |init| ==> init[i] == assigns[i];
    }
  }

  /** A field that is set holds the value of an assignment that sets it and that no later
      assignment overrides. */
  lemma {:induction false} LastValueSome(assigns: seq<Option<(Field, string)>>, f: Field)
    requires LastValue(assigns, f).Some?
    ensures exists i :: 0 <= i < |assigns| && assigns[i] == Some((f, LastValue(assigns, f).value)) &&
                        forall j :: i < j < |assigns| ==> !Sets(assigns[j], f)
  {
    var n := |assigns| - 1;
    var v := LastValue(assigns, f).value;
    if Sets(assigns[n], f) {
      assert assigns[n] == Some((f, v));
    } else {
      var init := assigns[..n];
      LastValueSome(init, f);
      var i :| 0 <= i < |init| && init[i] == Some((f, LastValue(init, f).value)) &&
               forall j :: i < j < |init| ==> !Sets(init[j], f);
      assert assigns[i] == Some((f, v));
      forall j | i < j < |assigns| ensures !Sets(assigns[j], f) {
        if j < n {
          assert init[j] == assigns[j];
        }
      }
    }
  }

  // ---- regular expressions ----

  /** The regular expression `^[a-zA-Z0-9_]+$` without the anchors' special case. */
  predicate AllWordChars(s: string) {
    |s| > 0 && forall i :: 0 <= i < |s| ==> IsWordChar(s[i])
  }

  /** `Regex.IsMatch(s, @"^[a-zA-Z0-9_]+$")`: the .NET `$` also matches just before a final
      line feed, so one trailing `'\n'` is allowed. */
  predicate MatchesWordPattern(s: string) {
    AllWordChars(s) || (|s| > 1 && s[|s| - 1] == '\n' && AllWordChars(s[..|s| - 1]))
  }

  /** The class `[a-zA-Z0-9._%+-]` of the part before the `@`. */
  predicate IsLocalChar(c: char) {
    IsAsciiLetter(c) || IsDigit(c) || c == '.' || c == '_' || c == '%' || c == '+' || c == '-'
  }

  /** The class `[a-zA-Z0-9.-]` of the domain before its last dot. */
  predicate IsDomainChar(c: char) {
    IsAsciiLetter(c) || IsDigit(c) || c == '.' || c == '-'
  }

  /** `s` matches `[a-zA-Z0-9._%+-]+@[a-zA-Z0-9.-]+\.[a-zA-Z]{2,}` with its `@` at index `at`
      and the dot before the letters at index `dot`. */
  predicate EmailSplitAt(s: string, at: int, dot: int) {
    && 0 < at && at + 1 < dot && dot + 2 < |s|
    && s[at] == '@' && s[dot] == '.'
    && (forall i :: 0 <= i < at ==> IsLocalChar(s[i]))
    && (forall i :: at < i < dot ==> IsDomainChar(s[i]))
    && (forall i :: dot < i < |s| ==> IsAsciiLetter(s[i]))
  }

  /** The regular expression `^[a-zA-Z0-9._%+-]+@[a-zA-Z0-9.-]+\.[a-zA-Z]{2,}` matches all of
      `s` in some way. */
  ghost predicate EmailPattern(s: string) {
    exists at, dot :: EmailSplitAt(s, at, dot)
  }

  /** The last index of `c` in `s`, or -1. */
  function LastIndexOf(s: string, c: char): (i: int)
    ensures -1 <= i < |s|
    ensures i >= 0 ==> s[i] == c
    ensures forall j :: i < j < |s| ==> s[j] != c
  {
    if s == [] then -1
    else if s[|s| - 1] == c then |s| - 1
    else LastIndexOf(s[..|s| - 1], c)
  }

  /** The email format checked directly: the split points can only be the last `@` and the
      last `.`. */
  predicate EmailFormat(s: string) {
    EmailSplitAt(s, LastIndexOf(s, '@'), LastIndexOf(s, '.'))
  }

  /** The direct check agrees with the regular expression, and a matching address has
      exactly one `@`. */
  lemma EmailFormatIsPattern(s: string)
    ensures EmailFormat(s) <==> EmailPattern(s)
    ensures EmailFormat(s) ==>
              forall j :: 0 <= j < |s| && s[j] == '@' ==> j == LastIndexOf(s, '@')
  {
    if EmailPattern(s) {
      var at, dot :| EmailSplitAt(s, at, dot);
      var lastAt, lastDot := LastIndexOf(s, '@'), LastIndexOf(s, '.');
      assert forall j :: dot < j < |s| ==> s[j] != '.' && s[j] != '@' by {
        forall j | dot < j < |s| ensures s[j] != '.' && s[j] != '@' {
          assert IsAsciiLetter(s[j]);
        }
      }
      assert forall j :: at < j < dot ==> s[j] != '@' by {
        forall j | at < j < dot ensures s[j] != '@' {
          assert IsDomainChar(s[j]);
        }
      }
      assert lastDot == dot;
      assert lastAt == at;
    }
  }

  /** `Regex.IsMatch(s, @"^[a-zA-Z0-9._%+-]+@[a-zA-Z0-9.-]+\.[a-zA-Z]{2,}$")`, with the `$`
      that also matches before a final line feed. */
  predicate MatchesEmailPattern(s: string) {
    EmailFormat(s) || (|s| > 0 && s[|s| - 1] == '\n' && EmailFormat(s[..|s| - 1]))
  }

  // ---- the rules ----

  /** `SampleValidationRule` (a rule on nullable strings). */
  function SampleRule(data: Option<string>): (r: Check)
    ensures r.Pass? ==> data.Some? && |data.value| > 0
  {
    if IsNullOrWhiteSpace(data) then Fail(ValidationException("Data cannot be null or whitespace."))
    else Pass
  }

  /** `UsernameValidationRule`: the first check that fails decides the error. */
  function UsernameRule(data: UserData): (r: Check)
    ensures r.Fail? ==> r.error.ValidationException?
    ensures r.Pass? ==> data.username.Some? && |data.username.value| >= 7
  {
    if IsNullOrWhiteSpace(data.username) then
      Fail(ValidationException("The Username cannot be null or whitespace."))
    else if !MatchesWordPattern(data.username.value) then
      Fail(ValidationException("The username must contain only English letters and numbers (underscores \"_\" are allowed)"))
    else if |data.username.value| < 7 then
      Fail(ValidationException("The username must contain a minimum of 7 characters."))
    else Pass
  }

  /** One part of the full name: `namePart[0]` on an empty part throws. */
  function CheckNamePart(namePart: string): (r: Check)
    ensures r.Pass? <==> WellFormedPart(namePart)
    ensures r.Fail? && r.error.IndexOutOfRangeException? <==> namePart == []
  {
    if namePart == [] then Fail(IndexOutOfRangeException)
    else if !IsUpper(namePart[0]) then
      Fail(ValidationException("The first letter of each name part in fullname must be uppercase."))
    else if exists i :: 1 <= i < |namePart| && !IsLower(namePart[i]) then
      Fail(ValidationException("The subsequent letters of each name part in fullname must be lowercase."))
    else Pass
  }

  /** The parts in order; the first part that fails decides the error. */
  function CheckNameParts(parts: seq<string>): (r: Check)
    ensures r.Pass? <==> forall k :: 0 <= k < |parts| ==> CheckNamePart(parts[k]).Pass?
    ensures r.Fail? ==> r.error.IndexOutOfRangeException? || r.error.ValidationException?
  {
    if parts == [] then Pass
    else if CheckNamePart(parts[0]).Fail? then CheckNamePart(parts[0])
    else CheckNameParts(parts[1..])
  }

  /** `FullnameValidationRule`: blankness, then every space-separated part, then the length. */
  function FullnameRule(data: UserData): (r: Check)
    ensures r.Fail? ==> r.error.IndexOutOfRangeException? || r.error.ValidationException?
    ensures r.Pass? ==> data.fullname.Some? && |data.fullname.value| <= 100
  {
    if IsNullOrWhiteSpace(data.fullname) then
      Fail(ValidationException("The fullname cannot be null or whitespace."))
    else if CheckNameParts(Split(data.fullname.value, ' ')).Fail? then
      CheckNameParts(Split(data.fullname.value, ' '))
    else if |data.fullname.value| > 100 then
      Fail(ValidationException("The username must contain a maxsimum 100 of characters."))
    else Pass
  }

  /** `EmailValidationRule`. */
  function EmailRule(data: UserData): (r: Check)
    ensures r.Fail? ==> r.error.ValidationException?
    ensures r.Pass? ==> data.email.Some? && '@' in data.email.value
  {
    if IsNullOrWhiteSpace(data.email) then
      Fail(ValidationException("Email cannot be null or whitespace."))
    else if !MatchesEmailPattern(data.email.value) then
      Fail(ValidationException("Invalid email format."))
    else Pass
  }

  /** `PasswordValidationRule`: blankness, then length, then the character class. */
  function PasswordRule(data: UserData): (r: Check)
    ensures r.Fail? ==> r.error.ValidationException?
    ensures r.Pass? ==> data.password.Some? && |data.password.value| >= 15
  {
    if IsNullOrWhiteSpace(data.password) then
      Fail(ValidationException("Password cannot be null or whitespace."))
    else if |data.password.value| < 15 then
      Fail(ValidationException("password must contain at least 15 characters"))
    else if !MatchesWordPattern(data.password.value) then
      Fail(ValidationException("\r\nThe password must contain an uppercase and lowercase letter and the symbol \"_\""))
    else Pass
  }

  // ---- properties of the rules ----

  /** The sample rule fails exactly on null and on blank strings. */
  lemma SampleRuleIff(data: Option<string>)
    ensures SampleRule(data).Fail? <==> data.None? || forall i :: 0 <= i < |data.value| ==> IsWhiteSpace(data.value[i])
  {
  }

  /** A string of word characters is not blank. */
  lemma WordPatternNotBlank(s: string)
    requires MatchesWordPattern(s)
    ensures !IsBlank(s)
  {
    assert IsWordChar(s[0]) && !IsWhiteSpace(s[0]);
  }

  /** A user name is accepted exactly when it is present, made of `[A-Za-z0-9_]` (with the
      final line feed the regular expression tolerates) and at least 7 characters long. */
  lemma UsernameAcceptedIff(data: UserData)
    ensures UsernameRule(data) == Pass <==>
              data.username.Some? && MatchesWordPattern(data.username.value) &&
              |data.username.value| >= 7
  {
    if data.username.Some? && MatchesWordPattern(data.username.value) {
      WordPatternNotBlank(data.username.value);
    }
  }

  /** A well-formed name part: an upper-case letter followed only by lower-case letters. */
  predicate WellFormedPart(p: string) {
    |p| > 0 && IsUpper(p[0]) && forall i :: 1 <= i < |p| ==> IsLower(p[i])
  }

  /** The parts pass exactly when every one of them is well formed. */
  lemma {:induction false} CheckNamePartsIff(parts: seq<string>)
    ensures CheckNameParts(parts) == Pass <==> forall k :: 0 <= k < |parts| ==> WellFormedPart(parts[k])
  {
    if parts != [] {
      CheckNamePartsIff(parts[1..]);
      assert forall k :: 1 <= k < |parts| ==> parts[k] == parts[1..][k - 1];
    }
  }

  /** The full name is accepted exactly when it is present and not blank, every `' '`
      separated part is well formed, and it has at most 100 characters. */
  lemma FullnameAcceptedIff(data: UserData)
    ensures FullnameRule(data) == Pass <==>
              data.fullname.Some? && !IsBlank(data.fullname.value) &&
              (forall k :: 0 <= k < |Split(data.fullname.value, ' ')| ==>
                 WellFormedPart(Split(data.fullname.value, ' ')[k])) &&
              |data.fullname.value| <= 100
  {
    if data.fullname.Some? {
      CheckNamePartsIff(Split(data.fullname.value, ' '));
    }
  }

  /** A full name that starts with a space but is not blank has an empty first part, on
      which the rule throws an index error before looking at anything else. */
  lemma FullnameLeadingSpace(data: UserData)
    requires data.fullname.Some? && !IsBlank(data.fullname.value)
    requires |data.fullname.value| > 0 && data.fullname.value[0] == ' '
    ensures FullnameRule(data) == Fail(IndexOutOfRangeException)
  {
    var s := data.fullname.value;
    assert Split(s, ' ')[0] == "";
  }

  /** A well-formed part holds no space. */
  lemma WellFormedPartFree(p: string)
    requires WellFormedPart(p)
    ensures Free(p, {' '}) && !IsWhiteSpace(p[0])
  {
    forall i | 0 <= i < |p| ensures p[i] != ' ' {
      if i > 0 { assert IsLower(p[i]); }
    }
  }

  /** Two spaces in a row after a well-formed first part make an empty second part, on
      which the rule throws an index error (as for "Ivan  Petrov"). */
  lemma FullnameDoubleSpace(first: string, rest: string)
    requires WellFormedPart(first)
    ensures FullnameRule(UserData(None, Some(first + "  " + rest), None, None)) ==
              Fail(IndexOutOfRangeException)
  {
    var name := first + "  " + rest;
    WellFormedPartFree(first);
    assert name == first + ([' '] + ([' '] + rest));
    SplitAnyFreePrefix(first, [' '] + ([' '] + rest), {' '});
    assert ([' '] + ([' '] + rest))[1..] == [' '] + rest;
    assert ([' '] + rest)[1..] == rest;
    var parts := Split(name, ' ');
    assert parts[0] == first && parts[1] == "";
    assert !IsWhiteSpace(name[0]);
    CheckNamePartsIff([first]);
    assert CheckNamePart(first) == Pass;
    assert parts[1..][0] == "";
    assert CheckNameParts(parts[1..]) == Fail(IndexOutOfRangeException);
    assert CheckNameParts(parts) == Fail(IndexOutOfRangeException);
    assert !IsBlank(name);
  }

  /** A name of two well-formed parts joined by one space, at most 100 characters long,
      is accepted (as "Alexander Shevtsov" is). */
  lemma FullnameTwoParts(first: string, last: string)
    requires WellFormedPart(first) && WellFormedPart(last) && |first| + 1 + |last| <= 100
    ensures FullnameRule(UserData(None, Some(first + " " + last), None, None)) == Pass
  {
    WellFormedPartFree(first);
    WellFormedPartFree(last);
    var parts := [first, last];
    assert Join(parts, ' ') == first + " " + last by {
      assert parts[1..] == [last];
    }
    SplitJoin(parts, ' ');
    CheckNamePartsIff(parts);
    assert !IsWhiteSpace((first + " " + last)[0]);
  }

  /** The email is accepted exactly when it is present and the regular expression matches. */
  lemma EmailAcceptedIff(data: UserData)
    ensures EmailRule(data) == Pass <==>
              data.email.Some? && (EmailPattern(data.email.value) ||
              (|data.email.value| > 0 && data.email.value[|data.email.value| - 1] == '\n' &&
               EmailPattern(data.email.value[..|data.email.value| - 1])))
  {
    if data.email.Some? {
      var s := data.email.value;
      EmailFormatIsPattern(s);
      if |s| > 0 {
        EmailFormatIsPattern(s[..|s| - 1]);
      }
      if EmailFormat(s) {
        assert !IsWhiteSpace(s[0]);
      } else if |s| > 0 && s[|s| - 1] == '\n' && EmailFormat(s[..|s| - 1]) {
        assert !IsWhiteSpace(s[..|s| - 1][0]);
      }
    }
  }

  /** The password is accepted exactly when it is present, at least 15 characters long and
      made of `[A-Za-z0-9_]`: no upper-case letter or underscore is demanded, whatever the
      message says. */
  lemma PasswordAcceptedIff(data: UserData)
    ensures PasswordRule(data) == Pass <==>
              data.password.Some? && |data.password.value| >= 15 &&
              MatchesWordPattern(data.password.value)
  {
    if data.password.Some? && MatchesWordPattern(data.password.value) {
      WordPatternNotBlank(data.password.value);
    }
  }

  /** An all-lower-case password without an underscore is accepted. */
  lemma PasswordNeedsNoUpperCase()
    ensures PasswordRule(UserData(None, None, None, Some("abcdefghijklmno"))) == Pass
  {
    var p := "abcdefghijklmno";
    assert !IsWhiteSpace(p[0]);
    assert forall i :: 0 <= i < |p| ==> 'a' <= p[i] <= 'o';
    assert AllWordChars(p);
  }

  // ---- the demo program ----

  /** An item `key:value` with colon-free parts sets the field its trimmed key names to the
      trimmed value. */
  lemma AssignmentOfItem(key: string, value: string, f: Field)
    requires Free(key, {':'}) && Free(value, {':'})
    requires FieldOf(Trim(key)) == Some(f)
    ensures Assignment(key + ":" + value) == Some((f, Trim(value)))
  {
    var parts := [key, value];
    assert Join(parts, ':') == key + ":" + value by {
      assert parts[1..] == [value];
    }
    SplitJoin(parts, ':');
  }

  /** The items of the demo program (each written as key, colon and value, which keeps the
      verifier from evaluating the rules letter by letter). */
  const SampleItems: seq<string> := ["username" + ":" + "Sasha322",
                                     "fullname" + ":" + "Alexander Shevtsov",
                                     "email" + ":" + "kuma@gmail.com",
                                     "password" + ":" + "22321S3_234324DFSD34f"]

  /** The record of the demo program. */
  const SampleUser := UserData(Some("Sasha322"), Some("Alexander Shevtsov"), Some("kuma@gmail.com"),
                               Some("22321S3_234324DFSD34f"))

  /** An item `key:value` whose key names a field and whose value is colon-free and has no
      white space at its ends sets that field to exactly that value. */
  lemma TrimmedItem(key: string, value: string, f: Field)
    requires Free(key, {':'}) && Free(value, {':'}) && FieldOf(key) == Some(f)
    requires value == [] || (!IsWhiteSpace(value[0]) && !IsWhiteSpace(value[|value| - 1]))
    ensures Assignment(key + ":" + value) == Some((f, value))
  {
    assert !IsWhiteSpace(key[0]) && !IsWhiteSpace(key[|key| - 1]);
    TrimOfTrimmed(key);
    AssignmentOfItem(key, value, f);
    TrimOfTrimmed(value);
  }

  /** What each demo item assigns. */
  const SampleAssignments: seq<Option<(Field, string)>> :=
    [Some((Username, "Sasha322")), Some((Fullname, "Alexander Shevtsov")),
     Some((Email, "kuma@gmail.com")), Some((Password, "22321S3_234324DFSD34f"))]

  lemma SampleItem0()
    ensures Assignments(SampleItems)[0] == SampleAssignments[0]
  {
    TrimmedItem("username", "Sasha322", Username);
  }

  lemma SampleItem1()
    ensures Assignments(SampleItems)[1] == SampleAssignments[1]
  {
    TrimmedItem("fullname", "Alexander Shevtsov", Fullname);
  }

  lemma SampleItem2()
    ensures Assignments(SampleItems)[2] == SampleAssignments[2]
  {
    TrimmedItem("email", "kuma@gmail.com", Email);
  }

  lemma SampleItem3()
    ensures Assignments(SampleItems)[3] == SampleAssignments[3]
  {
    TrimmedItem("password", "22321S3_234324DFSD34f", Password);
  }

  /** Assignments that agree with the demo ones build the demo record. */
  lemma SampleRecord(assigns: seq<Option<(Field, string)>>)
    requires |assigns| == 4
    requires assigns[0] == SampleAssignments[0] && assigns[1] == SampleAssignments[1]
    requires assigns[2] == SampleAssignments[2] && assigns[3] == SampleAssignments[3]
    ensures Record(assigns) == SampleUser
  {
    var a := SampleAssignments;
    assert assigns == a;
    RecordAppend([], a[0]);
    assert [] + [a[0]] == a[..1];
    RecordAppend(a[..1], a[1]);
    assert a[..1] + [a[1]] == a[..2];
    RecordAppend(a[..2], a[2]);
    assert a[..2] + [a[2]] == a[..3];
    RecordAppend(a[..3], a[3]);
    assert a[..3] + [a[3]] == a;
  }

  /** The demo items parse to a record with all four fields set. */
  lemma SampleItemsParse()
    ensures Record(Assignments(SampleItems)) == SampleUser
  {
    SampleItem0();
    SampleItem1();
    SampleItem2();
    SampleItem3();
    SampleRecord(Assignments(SampleItems));
  }

  /** The demo user name is accepted. */
  lemma SampleUsernameValid()
    ensures UsernameRule(SampleUser) == Pass
  {
    assert AllWordChars(SampleUser.username.value);
    UsernameAcceptedIff(SampleUser);
  }

  /** The demo full name is accepted. */
  lemma SampleFullnameValid()
    ensures FullnameRule(SampleUser) == Pass
  {
    assert WellFormedPart("Alexander") && WellFormedPart("Shevtsov");
    assert "Alexander" + " " + "Shevtsov" == SampleUser.fullname.value;
    FullnameTwoParts("Alexander", "Shevtsov");
  }

  /** The demo email is accepted. */
  lemma SampleEmailValid()
    ensures EmailRule(SampleUser) == Pass
  {
    assert EmailSplitAt(SampleUser.email.value, 4, 10);
    EmailAcceptedIff(SampleUser);
  }

  /** The demo password is accepted. */
  lemma SamplePasswordValid()
    ensures PasswordRule(SampleUser) == Pass
  {
    assert AllWordChars(SampleUser.password.value);
    PasswordAcceptedIff(SampleUser);
  }

  /** A record that each user rule accepts passes the validator built with all four. */
  lemma AllUserRulesPass(u: UserData)
    requires UsernameRule(u) == Pass && FullnameRule(u) == Pass
    requires EmailRule(u) == Pass && PasswordRule(u) == Pass
    ensures Failures([UsernameRule, FullnameRule, EmailRule, PasswordRule], u) == []
  {
    FourRulesPass(UsernameRule, FullnameRule, EmailRule, PasswordRule, u);
  }

  /** Four rules that all pass report no failure. */
  lemma FourRulesPass(r0: Rule<UserData>, r1: Rule<UserData>, r2: Rule<UserData>, r3: Rule<UserData>,
                      u: UserData)
    requires r0(u).Pass? && r1(u).Pass? && r2(u).Pass? && r3(u).Pass?
    ensures Failures([r0, r1, r2, r3], u) == []
  {
    FailuresEmptyIff([r0, r1, r2, r3], u);
  }

  /** The demo record passes the validator built with the four user rules. */
  lemma SampleUserValid()
    ensures Failures([UsernameRule, FullnameRule, EmailRule, PasswordRule], SampleUser) == []
  {
    SampleUsernameValid();
    SampleFullnameValid();
    SampleEmailValid();
    SamplePasswordValid();
    AllUserRulesPass(SampleUser);
  }

  /** The first half of the demo program: a validator with the sample rule alone accepts
      each of the four sample strings. */
  method DemoSamples() returns (sampleResults: seq<Check>)
    ensures sampleResults == [Pass, Pass, Pass, Pass]
  {
    var builder := new DataValidatorBuilder<Option<string>>();
    builder := builder.AddRule(SampleRule);
    var built := builder.Build();
    var validator := built.validator;
    var samples := ["Sample", "Good", "Super", "List"];
    sampleResults := [];
    for i := 0 to |samples|
      invariant sampleResults == seq(i, _ => Pass)
      invariant validator.rules.items == [SampleRule]
    {
      assert !IsWhiteSpace(samples[i][0]);
      assert [SampleRule][..0] == [];
      var r := validator.Validate(Some(samples[i]));
      sampleResults := sampleResults + [r];
    }
  }

  /** The second half of the demo program: the demo items, parsed, pass a validator built
      with the four user rules. */
  method DemoUser() returns (userResult: Check)
    ensures userResult == Pass
  {
    var validator1 := BuildUserValidator();
    var userData := ParseUserData(SampleItems);
    SampleItemsParse();
    SampleUserValid();
    userResult := validator1.Validate(userData);
  }

  /** The builder chain of the demo program: the four user rules, in order. */
  method BuildUserValidator() returns (validator: UniversalValidator<UserData>)
    ensures validator.rules.items == [UsernameRule, FullnameRule, EmailRule, PasswordRule]
  {
    var builder := new DataValidatorBuilder<UserData>();
    builder := builder.AddRule(UsernameRule);
    builder := builder.AddRule(FullnameRule);
    builder := builder.AddRule(EmailRule);
    builder := builder.AddRule(PasswordRule);
    var built := builder.Build();
    validator := built.validator;
  }

  /** The demo program: both halves, one after the other. */
  method DemoMain() returns (sampleResults: seq<Check>, userResult: Check)
    ensures sampleResults == [Pass, Pass, Pass, Pass]
    ensures userResult == Pass
  {
    sampleResults := DemoSamples();
    userResult := DemoUser();
  }
}
