/** Request validators whose rules measure strings: keys, credentials, enum options and imports. */
module Requests {
  import opened Foundation
  import opened Decimal
  import opened Messages
  import opened Violations
  import opened Utf8

  // ---- Keys ----

  predicate Lower(b: byte) {
    'a' as byte <= b <= 'z' as byte
  }

  predicate Upper(b: byte) {
    'A' as byte <= b <= 'Z' as byte
  }

  predicate Digit(b: byte) {
    '0' as byte <= b <= '9' as byte
  }

  /** `^[A-Za-z][A-Za-z0-9]*$`, the pattern of config, structure and enum keys. */
  predicate KeyPattern(s: Bytes) {
    s != [] && (Lower(s[0]) || Upper(s[0]))
    && forall i :: 1 <= i < |s| ==> Lower(s[i]) || Upper(s[i]) || Digit(s[i])
  }

  /** `^[a-z][a-z0-9-]*$`, the pattern of environment keys. */
  predicate EnvironmentKeyPattern(s: Bytes) {
    s != [] && Lower(s[0]) && forall i :: 1 <= i < |s| ==> Lower(s[i]) || Digit(s[i]) || s[i] == '-' as byte
  }

  /** `^[a-z][a-z0-9_:.-]*$`, the pattern of role keys. */
  predicate RoleKeyPattern(s: Bytes) {
    s != [] && Lower(s[0])
    && forall i :: 1 <= i < |s| ==>
         Lower(s[i]) || Digit(s[i]) || s[i] in ['_' as byte, ':' as byte, '.' as byte, '-' as byte]
  }

  /** `^[A-Z][A-Z0-9_]*$`, the pattern of enum values. */
  predicate OptionPattern(s: Bytes) {
    s != [] && Upper(s[0]) && forall i :: 1 <= i < |s| ==> Upper(s[i]) || Digit(s[i]) || s[i] == '_' as byte
  }

  predicate RunesBetween(s: Bytes, low: nat, high: nat) {
    low <= RuneCount(s) <= high
  }

  /** The two rules every key field carries: 1 to 64 runes, and a pattern. */
  function KeyErrors(message: string, key: Bytes, matches: bool, pattern: string): (errors: seq<Error>) {
    Check(RunesBetween(key, 1, 64), message, "Key", "value length must be between 1 and 64 runes, inclusive")
    + Check(matches, message, "Key", "value does not match regex pattern \"" + pattern + "\"")
  }

  /** The domain layer's own test, `validKey`, which bounds bytes instead of runes. */
  predicate ValidKey(key: Bytes) {
    |key| <= 64 && KeyPattern(key)
  }

  /** A key field lets through exactly the ASCII keys of 1 to 64 bytes, which is what the domain layer demands. */
  lemma {:induction false} KeyRuleIsByteRule(message: string, key: Bytes, pattern: string)
    ensures KeyErrors(message, key, KeyPattern(key), pattern) == [] <==> ValidKey(key)
    ensures ValidKey(key) ==> Ascii(key) && RuneCount(key) == |key| >= 1
  {
    if KeyPattern(key) {
      KeyPatternIsAscii(key);
      AsciiRunesAreBytes(key);
    }
  }

  lemma {:induction false} KeyPatternIsAscii(key: Bytes)
    requires KeyPattern(key)
    ensures Ascii(key)
  {
    forall i | 0 <= i < |key|
      ensures key[i] < 0x80
    {
      assert i == 0 || Lower(key[i]) || Upper(key[i]) || Digit(key[i]);
    }
  }

  // ---- The languages of the patterns, byte by byte ----

  predicate AsciiLetter(c: byte) {
    65 <= c <= 90 || 97 <= c <= 122
  }

  predicate AsciiDigit(c: byte) {
    48 <= c <= 57
  }

  /**
   * Config, structure and enum keys: a letter alone is a key, and a longer text is one exactly if dropping its last
   * byte leaves a key with room for one more, and that byte is a letter or a digit.
   */
  lemma {:induction false} KeyLanguage(message: string, pattern: string, k: Bytes, c: byte)
    ensures KeyErrors(message, [], KeyPattern([]), pattern) != [] && !ValidKey([])
    ensures KeyErrors(message, [c], KeyPattern([c]), pattern) == [] <==> AsciiLetter(c)
    ensures ValidKey([c]) <==> AsciiLetter(c)
    ensures k != [] ==>
              (ValidKey(k + [c]) <==> ValidKey(k) && |k| < 64 && (AsciiLetter(c) || AsciiDigit(c)))
    ensures k != [] ==>
              (KeyErrors(message, k + [c], KeyPattern(k + [c]), pattern) == []
               <==> KeyErrors(message, k, KeyPattern(k), pattern) == [] && |k| < 64
                    && (AsciiLetter(c) || AsciiDigit(c)))
  {
    KeyRuleIsByteRule(message, [c], pattern);
    KeyRuleIsByteRule(message, k, pattern);
    KeyRuleIsByteRule(message, k + [c], pattern);
    assert (k + [c])[|k|] == c;
    assert forall i :: 0 <= i < |k| ==> (k + [c])[i] == k[i];
  }

  predicate EnvironmentKeyAccepted(k: Bytes) {
    KeyErrors("CreateEnvironmentRequest", k, EnvironmentKeyPattern(k), "^[a-z][a-z0-9-]*$") == []
  }

  predicate RoleKeyAccepted(k: Bytes) {
    KeyErrors("CreateRoleRequest", k, RoleKeyPattern(k), "^[a-z][a-z0-9_:.-]*$") == []
  }

  lemma {:induction false} EnvironmentKeysAreShort(k: Bytes)
    ensures EnvironmentKeyAccepted(k) <==> EnvironmentKeyPattern(k) && |k| <= 64
    ensures RoleKeyAccepted(k) <==> RoleKeyPattern(k) && |k| <= 64
  {
    if EnvironmentKeyPattern(k) || RoleKeyPattern(k) {
      AsciiRunesAreBytes(k);
    }
  }

  /** Environment keys: a small letter, then small letters, digits and hyphens. */
  lemma {:induction false} EnvironmentKeyLanguage(k: Bytes, c: byte)
    ensures !EnvironmentKeyAccepted([])
    ensures EnvironmentKeyAccepted([c]) <==> 97 <= c <= 122
    ensures k != [] ==>
              (EnvironmentKeyAccepted(k + [c])
               <==> EnvironmentKeyAccepted(k) && |k| < 64 && (97 <= c <= 122 || AsciiDigit(c) || c == 45))
  {
    EnvironmentKeysAreShort([c]);
    EnvironmentKeysAreShort(k);
    EnvironmentKeysAreShort(k + [c]);
    assert (k + [c])[|k|] == c;
    assert forall i :: 0 <= i < |k| ==> (k + [c])[i] == k[i];
  }

  /** Role keys: a small letter, then small letters, digits, underscores, colons, dots and hyphens. */
  lemma {:induction false} RoleKeyLanguage(k: Bytes, c: byte)
    ensures !RoleKeyAccepted([])
    ensures RoleKeyAccepted([c]) <==> 97 <= c <= 122
    ensures k != [] ==>
              (RoleKeyAccepted(k + [c])
               <==> RoleKeyAccepted(k) && |k| < 64
                    && (97 <= c <= 122 || AsciiDigit(c) || c == 95 || c == 58 || c == 46 || c == 45))
  {
    EnvironmentKeysAreShort([c]);
    EnvironmentKeysAreShort(k);
    EnvironmentKeysAreShort(k + [c]);
    assert (k + [c])[|k|] == c;
    assert forall i :: 0 <= i < |k| ==> (k + [c])[i] == k[i];
  }

  /** Enum values: a capital, then capitals, digits and underscores. */
  lemma {:induction false} OptionLanguage(k: Bytes, c: byte)
    ensures !OptionPattern([])
    ensures OptionPattern([c]) <==> 65 <= c <= 90
    ensures k != [] ==>
              (OptionPattern(k + [c]) <==> OptionPattern(k) && (65 <= c <= 90 || AsciiDigit(c) || c == 95))
    ensures OptionPattern(k) ==> RuneCount(k) == |k|
  {
    assert (k + [c])[|k|] == c;
    assert forall i :: 0 <= i < |k| ==> (k + [c])[i] == k[i];
    if OptionPattern(k) {
      AsciiRunesAreBytes(k);
    }
  }

  /** Every environment key is also a role key, and both rules bound its bytes by 64. */
  lemma {:induction false} EnvironmentKeyIsRoleKey(key: Bytes, m: string, n: string, p: string, q: string)
    requires KeyErrors(m, key, EnvironmentKeyPattern(key), p) == []
    ensures KeyErrors(n, key, RoleKeyPattern(key), q) == [] && 1 <= |key| <= 64
  {
    AsciiRunesAreBytes(key);
  }

  // ---- Credentials ----

  datatype Login = Login(username: Bytes, password: Bytes)
  datatype CreateUser = CreateUser(username: Bytes, displayName: Bytes, password: Bytes)
  datatype InitialAdmin = InitialAdmin(username: Bytes, displayName: Bytes, password: Bytes)
  datatype PasswordChange = PasswordChange(userId: int, password: Bytes)

  const NAME_RUNES := "value length must be between 1 and 128 runes, inclusive"

  function LoginErrors(m: Login): (errors: seq<Error>) {
    Check(RunesBetween(m.username, 1, 128), "LoginRequest", "Username", NAME_RUNES)
    + Check(RunesBetween(m.password, 1, 1024), "LoginRequest", "Password",
            "value length must be between 1 and 1024 runes, inclusive")
  }

  function CreateUserErrors(m: CreateUser): (errors: seq<Error>) {
    Check(RunesBetween(m.username, 1, 128), "CreateUserRequest", "Username", NAME_RUNES)
    + Check(RunesBetween(m.displayName, 1, 128), "CreateUserRequest", "DisplayName", NAME_RUNES)
    + Check(RunesBetween(m.password, 12, 1024), "CreateUserRequest", "Password",
            "value length must be between 12 and 1024 runes, inclusive")
  }

  function InitialAdminErrors(m: InitialAdmin): (errors: seq<Error>) {
    Check(RunesBetween(m.username, 1, 128), "CreateInitialAdminRequest", "Username", NAME_RUNES)
    + Check(RunesBetween(m.displayName, 1, 128), "CreateInitialAdminRequest", "DisplayName", NAME_RUNES)
    + Check(12 <= |m.password| <= 1024, "CreateInitialAdminRequest", "Password",
            "value length must be between 12 and 1024 bytes, inclusive")
  }

  function PasswordChangeErrors(m: PasswordChange): (errors: seq<Error>) {
    Check(m.userId > 0, "UpdateUserPasswordRequest", "UserId", POSITIVE)
    + Check(RunesBetween(m.password, 12, 1024), "UpdateUserPasswordRequest", "Password",
            "value length must be between 12 and 1024 runes, inclusive")
  }

  method ValidateLogin(m: Option<Login>, all: bool) returns (r: Option<Error>)
    ensures r == if m.None? then None else Outcome(all, "LoginRequest", LoginErrors(m.value))
  {
    if m.None? {
      return None;
    }
    var errors: seq<Error> := [];
    var l := RuneCount(m.value.username);
    if l < 1 || l > 128 {
      var err := Violation("LoginRequest", "Username", NAME_RUNES, None);
      if !all { return Some(err); }
      errors := errors + [err];
    }
    l := RuneCount(m.value.password);
    if l < 1 || l > 1024 {
      var err := Violation("LoginRequest", "Password",
        "value length must be between 1 and 1024 runes, inclusive", None);
      if !all { return Some(err); }
      errors := errors + [err];
    }
    assert errors == LoginErrors(m.value);
    if |errors| > 0 {
      return Some(MultiError("LoginRequest", errors));
    }
    return None;
  }

  method ValidateCreateUser(m: Option<CreateUser>, all: bool) returns (r: Option<Error>)
    ensures r == if m.None? then None else Outcome(all, "CreateUserRequest", CreateUserErrors(m.value))
  {
    if m.None? {
      return None;
    }
    var errors: seq<Error> := [];
    var l := RuneCount(m.value.username);
    if l < 1 || l > 128 {
      var err := Violation("CreateUserRequest", "Username", NAME_RUNES, None);
      if !all { return Some(err); }
      errors := errors + [err];
    }
    l := RuneCount(m.value.displayName);
    if l < 1 || l > 128 {
      var err := Violation("CreateUserRequest", "DisplayName", NAME_RUNES, None);
      if !all { return Some(err); }
      errors := errors + [err];
    }
    l := RuneCount(m.value.password);
    if l < 12 || l > 1024 {
      var err := Violation("CreateUserRequest", "Password",
        "value length must be between 12 and 1024 runes, inclusive", None);
      if !all { return Some(err); }
      errors := errors + [err];
    }
    assert errors == CreateUserErrors(m.value);
    if |errors| > 0 {
      return Some(MultiError("CreateUserRequest", errors));
    }
    return None;
  }

  method ValidateInitialAdmin(m: Option<InitialAdmin>, all: bool) returns (r: Option<Error>)
    ensures r == if m.None? then None else Outcome(all, "CreateInitialAdminRequest", InitialAdminErrors(m.value))
  {
    if m.None? {
      return None;
    }
    var errors: seq<Error> := [];
    var l := RuneCount(m.value.username);
    if l < 1 || l > 128 {
      var err := Violation("CreateInitialAdminRequest", "Username", NAME_RUNES, None);
      if !all { return Some(err); }
      errors := errors + [err];
    }
    l := RuneCount(m.value.displayName);
    if l < 1 || l > 128 {
      var err := Violation("CreateInitialAdminRequest", "DisplayName", NAME_RUNES, None);
      if !all { return Some(err); }
      errors := errors + [err];
    }
    l := |m.value.password|;
    if l < 12 || l > 1024 {
      var err := Violation("CreateInitialAdminRequest", "Password",
        "value length must be between 12 and 1024 bytes, inclusive", None);
      if !all { return Some(err); }
      errors := errors + [err];
    }
    assert errors == InitialAdminErrors(m.value);
    if |errors| > 0 {
      return Some(MultiError("CreateInitialAdminRequest", errors));
    }
    return None;
  }

  method ValidatePasswordChange(m: Option<PasswordChange>, all: bool) returns (r: Option<Error>)
    ensures r == if m.None? then None else Outcome(all, "UpdateUserPasswordRequest", PasswordChangeErrors(m.value))
  {
    if m.None? {
      return None;
    }
    var errors: seq<Error> := [];
    if m.value.userId <= 0 {
      var err := Violation("UpdateUserPasswordRequest", "UserId", POSITIVE, None);
      if !all { return Some(err); }
      errors := errors + [err];
    }
    var l := RuneCount(m.value.password);
    if l < 12 || l > 1024 {
      var err := Violation("UpdateUserPasswordRequest", "Password",
        "value length must be between 12 and 1024 runes, inclusive", None);
      if !all { return Some(err); }
      errors := errors + [err];
    }
    assert errors == PasswordChangeErrors(m.value);
    if |errors| > 0 {
      return Some(MultiError("UpdateUserPasswordRequest", errors));
    }
    return None;
  }

  /** What each of the four requests accepts, in either mode. */
  lemma {:induction false} CredentialsAccepted(
      all: bool, username: Bytes, displayName: Bytes, password: Bytes, userId: int)
    ensures Outcome(all, "LoginRequest", LoginErrors(Login(username, password))).None?
       <==> 1 <= RuneCount(username) <= 128 && 1 <= RuneCount(password) <= 1024
    ensures Outcome(all, "CreateUserRequest", CreateUserErrors(CreateUser(username, displayName, password))).None?
       <==> 1 <= RuneCount(username) <= 128 && 1 <= RuneCount(displayName) <= 128 && 12 <= RuneCount(password) <= 1024
    ensures Outcome(all, "CreateInitialAdminRequest",
                    InitialAdminErrors(InitialAdmin(username, displayName, password))).None?
       <==> 1 <= RuneCount(username) <= 128 && 1 <= RuneCount(displayName) <= 128 && 12 <= |password| <= 1024
    ensures Outcome(all, "UpdateUserPasswordRequest", PasswordChangeErrors(PasswordChange(userId, password))).None?
       <==> userId > 0 && 12 <= RuneCount(password) <= 1024
  {
  }

  /** In fail-fast mode the checks report in this order: name, display name, password. */
  lemma {:induction false} CredentialsReported(
      username: Bytes, displayName: Bytes, password: Bytes, name: bool, display: bool)
    requires name == (1 <= RuneCount(username) <= 128) && display == (1 <= RuneCount(displayName) <= 128)
    ensures Outcome(false, "LoginRequest", LoginErrors(Login(username, password)))
         == if !name then Some(Violation("LoginRequest", "Username", NAME_RUNES, None))
            else if !(1 <= RuneCount(password) <= 1024)
            then Some(Violation("LoginRequest", "Password",
                                "value length must be between 1 and 1024 runes, inclusive", None))
            else None
    ensures Outcome(false, "CreateUserRequest", CreateUserErrors(CreateUser(username, displayName, password)))
         == if !name then Some(Violation("CreateUserRequest", "Username", NAME_RUNES, None))
            else if !display then Some(Violation("CreateUserRequest", "DisplayName", NAME_RUNES, None))
            else if !(12 <= RuneCount(password) <= 1024)
            then Some(Violation("CreateUserRequest", "Password",
                                "value length must be between 12 and 1024 runes, inclusive", None))
            else None
    ensures Outcome(false, "CreateInitialAdminRequest",
                    InitialAdminErrors(InitialAdmin(username, displayName, password)))
         == if !name then Some(Violation("CreateInitialAdminRequest", "Username", NAME_RUNES, None))
            else if !display then Some(Violation("CreateInitialAdminRequest", "DisplayName", NAME_RUNES, None))
            else if !(12 <= |password| <= 1024)
            then Some(Violation("CreateInitialAdminRequest", "Password",
                                "value length must be between 12 and 1024 bytes, inclusive", None))
            else None
  {
  }

  lemma {:induction false} PasswordChangeReported(userId: int, password: Bytes)
    ensures Outcome(false, "UpdateUserPasswordRequest", PasswordChangeErrors(PasswordChange(userId, password)))
         == if userId <= 0 then Some(Violation("UpdateUserPasswordRequest", "UserId", POSITIVE, None))
            else if !(12 <= RuneCount(password) <= 1024)
            then Some(Violation("UpdateUserPasswordRequest", "Password",
                                "value length must be between 12 and 1024 runes, inclusive", None))
            else None
  {
  }

  /** Whoever setup or user creation lets in can log in with the same username and password. */
  lemma {:induction false} CreatedAccountsCanLogIn(username: Bytes, displayName: Bytes, password: Bytes)
    requires InitialAdminErrors(InitialAdmin(username, displayName, password)) == []
          || CreateUserErrors(CreateUser(username, displayName, password)) == []
    ensures LoginErrors(Login(username, password)) == []
  {
    RuneByteBounds(password);
  }

  /** A password that creation or a change accepts meets setup's byte minimum, and its maximum exactly up to 1024. */
  lemma {:induction false} AcceptedPasswordBytes(username: Bytes, displayName: Bytes, password: Bytes, userId: int)
    requires CreateUserErrors(CreateUser(username, displayName, password)) == []
          || PasswordChangeErrors(PasswordChange(userId, password)) == []
    ensures 12 <= |password| <= 4096
    ensures CreateUserErrors(CreateUser(username, displayName, password)) == [] ==>
              (InitialAdminErrors(InitialAdmin(username, displayName, password)) == [] <==> |password| <= 1024)
  {
    RuneByteBounds(password);
  }

  /** Conversely, creation accepts what setup accepts exactly if the password has 12 runes, not just 12 bytes. */
  lemma {:induction false} SetupAcceptedByCreationIff(username: Bytes, displayName: Bytes, password: Bytes)
    requires InitialAdminErrors(InitialAdmin(username, displayName, password)) == []
    ensures CreateUserErrors(CreateUser(username, displayName, password)) == [] <==> RuneCount(password) >= 12
  {
    RuneByteBounds(password);
  }

  const EURO: Scalar := 0x20AC
  const SMILE: Scalar := 0x1F600

  /** Setup and user creation do not accept the same passwords: four euro signs (12 bytes) pass only setup. */
  lemma {:induction false} SetupIsLooserOnShortRunes(displayName: Bytes)
    requires RunesBetween(displayName, 1, 128)
    ensures var password := EncodeAll([EURO, EURO, EURO, EURO]);
            InitialAdminErrors(InitialAdmin(displayName, displayName, password)) == []
            && CreateUserErrors(CreateUser(displayName, displayName, password)) != []
  {
    EncodedMeasures([EURO, EURO, EURO, EURO], 3);
  }

  function Smiles(n: nat): (cs: seq<Scalar>)
    ensures |cs| == n
  {
    seq(n, i => SMILE)
  }

  /** And 300 four-byte runes (1200 bytes) pass only user creation. */
  lemma {:induction false} CreationIsLooserOnLongRunes(displayName: Bytes)
    requires RunesBetween(displayName, 1, 128)
    ensures var password := EncodeAll(Smiles(300));
            CreateUserErrors(CreateUser(displayName, displayName, password)) == []
            && InitialAdminErrors(InitialAdmin(displayName, displayName, password)) != []
  {
    assert |Encode(SMILE)| == 4;
    EncodedMeasures(Smiles(300), 4);
  }

  lemma {:induction false} EncodedMeasures(cs: seq<Scalar>, width: nat)
    requires forall i :: 0 <= i < |cs| ==> |Encode(cs[i])| == width
    ensures |EncodeAll(cs)| == width * |cs| && RuneCount(EncodeAll(cs)) == |cs|
  {
    RuneCountEncoded(cs, []);
    assert EncodeAll(cs) + [] == EncodeAll(cs);
    EncodedLength(cs, width);
  }

  lemma {:induction false} EncodedLength(cs: seq<Scalar>, width: nat)
    requires forall i :: 0 <= i < |cs| ==> |Encode(cs[i])| == width
    ensures |EncodeAll(cs)| == width * |cs|
  {
    if cs != [] {
      EncodedLength(cs[1..], width);
      assert width * |cs| == width + width * |cs[1..]|;
    }
  }

  // ---- Enum options ----

  const RUNES_64 := "value length must be between 1 and 64 runes, inclusive"
  const RUNES_255 := "value length must be at most 255 runes"
  const OPTION_REGEX := "value does not match regex pattern \"^[A-Z][A-Z0-9_]*$\""

  function OptionErrors(m: SelectOption): (errors: seq<Error>) {
    Check(RunesBetween(m.display, 1, 64), "SelectOption", "Label", RUNES_64)
    + Check(RunesBetween(m.value, 1, 64), "SelectOption", "Value", RUNES_64)
    + Check(OptionPattern(m.value), "SelectOption", "Value", OPTION_REGEX)
    + Check(RuneCount(m.description) <= 255, "SelectOption", "Description", RUNES_255)
  }

  function CollectOption(m: Option<SelectOption>): (r: Option<Error>) {
    if m.None? then None else Outcome(true, "SelectOption", OptionErrors(m.value))
  }

  function CollectOptions(ms: seq<Option<SelectOption>>): (r: seq<Option<Error>>)
    ensures |r| == |ms|
    ensures forall i :: 0 <= i < |ms| ==> r[i] == CollectOption(ms[i])
  {
    seq(|ms|, i requires 0 <= i < |ms| => CollectOption(ms[i]))
  }

  /** The violations of a request's option list. */
  function ValuesErrors(message: string, values: seq<Option<SelectOption>>): (errors: seq<Error>) {
    Check(|values| >= 1, message, "Values", "value must contain at least 1 item(s)")
    + EmbedEach(message, "Values", CollectOptions(values), 0)
  }

  method ValidateOption(m: Option<SelectOption>, all: bool) returns (r: Option<Error>)
    ensures r == if m.None? then None else Outcome(all, "SelectOption", OptionErrors(m.value))
  {
    if m.None? {
      return None;
    }
    var errors: seq<Error> := [];
    var l := RuneCount(m.value.display);
    if l < 1 || l > 64 {
      var err := Violation("SelectOption", "Label", RUNES_64, None);
      if !all { return Some(err); }
      errors := errors + [err];
    }
    l := RuneCount(m.value.value);
    if l < 1 || l > 64 {
      var err := Violation("SelectOption", "Value", RUNES_64, None);
      if !all { return Some(err); }
      errors := errors + [err];
    }
    if !OptionPattern(m.value.value) {
      var err := Violation("SelectOption", "Value", OPTION_REGEX, None);
      if !all { return Some(err); }
      errors := errors + [err];
    }
    if RuneCount(m.value.description) > 255 {
      var err := Violation("SelectOption", "Description", RUNES_255, None);
      if !all { return Some(err); }
      errors := errors + [err];
    }
    assert errors == OptionErrors(m.value);
    if |errors| > 0 {
      return Some(MultiError("SelectOption", errors));
    }
    return None;
  }

  /** The option loop shared by the create and update requests, run after the scalar checks have left `before`. */
  method CheckValues(message: string, values: seq<Option<SelectOption>>, all: bool, before: seq<Error>)
    returns (errors: seq<Error>, failed: Option<Error>)
    requires !all ==> before == []
    ensures failed.None? ==> errors == before + ValuesErrors(message, values)
    ensures !all ==> failed == Outcome(false, message, ValuesErrors(message, values))
    ensures all ==> failed.None?
  {
    errors := before;
    ghost var count := Check(|values| >= 1, message, "Values", "value must contain at least 1 item(s)");
    ghost var inner := CollectOptions(values);
    if |values| < 1 {
      var err := Violation(message, "Values", "value must contain at least 1 item(s)", None);
      if !all { return errors, Some(err); }
      errors := errors + [err];
    }
    for idx := 0 to |values|
      invariant errors == before + (count + EmbedEach(message, "Values", inner[..idx], 0))
      invariant !all ==> errors == []
    {
      EmbedEachStep(message, "Values", inner, idx);
      var err := ValidateOption(values[idx], all);
      if err.Some? {
        var wrapped := Violation(message, Label("Values", idx), EMBEDDED, err);
        if !all {
          FirstOfEmbedEach(message, "Values", count, inner, idx, "SelectOption", OptionErrors(values[idx].value));
          return errors, Some(wrapped);
        }
        errors := errors + [wrapped];
      }
    }
    assert inner[..|values|] == inner;
    failed := None;
  }

  /** In fail-fast mode an option reports its label, the length and the pattern of its value, then its description. */
  lemma {:induction false} OptionReported(m: SelectOption)
    ensures Outcome(false, "SelectOption", OptionErrors(m))
         == if !(1 <= RuneCount(m.display) <= 64) then Some(Violation("SelectOption", "Label", RUNES_64, None))
            else if !(1 <= RuneCount(m.value) <= 64) then Some(Violation("SelectOption", "Value", RUNES_64, None))
            else if !OptionPattern(m.value) then Some(Violation("SelectOption", "Value", OPTION_REGEX, None))
            else if RuneCount(m.description) > 255
            then Some(Violation("SelectOption", "Description", RUNES_255, None))
            else None
  {
  }

  /** Appending options appends their violations, with the later indices shifted; nothing else changes. */
  lemma {:induction false} OptionsCompose(message: string, xs: seq<Option<SelectOption>>, ys: seq<Option<SelectOption>>)
    ensures EmbedEach(message, "Values", CollectOptions(xs + ys), 0)
         == EmbedEach(message, "Values", CollectOptions(xs), 0) + EmbedEach(message, "Values", CollectOptions(ys), |xs|)
  {
    assert CollectOptions(xs + ys) == CollectOptions(xs) + CollectOptions(ys);
    EmbedEachConcat(message, "Values", CollectOptions(xs), CollectOptions(ys), 0);
  }

  /** An option list passes exactly when it is non-empty and every option that is present passes. */
  lemma {:induction false} OptionsAccepted(message: string, values: seq<Option<SelectOption>>)
    ensures ValuesErrors(message, values) == []
       <==> values != [] && forall i :: 0 <= i < |values| && values[i].Some? ==>
              var m := values[i].value;
              && 1 <= RuneCount(m.display) <= 64 && OptionPattern(m.value) && |m.value| <= 64
              && RuneCount(m.description) <= 255
  {
    EmbedEachEmpty(message, "Values", CollectOptions(values), 0);
    forall i | 0 <= i < |values| && values[i].Some?
      ensures var m := values[i].value;
              CollectOptions(values)[i].None?
              <==> && 1 <= RuneCount(m.display) <= 64 && OptionPattern(m.value) && |m.value| <= 64
                   && RuneCount(m.description) <= 255
    {
      var value := values[i].value.value;
      if OptionPattern(value) {
        AsciiRunesAreBytes(value);
      }
    }
  }

  // ---- Importing a snapshot ----

  datatype ImportSnapshot = ImportSnapshot(
    targetEnvironmentId: int, sourceEnvironmentId: int, sourceSnapshotId: int, targetProjectId: int,
    targetConfigId: Option<int>, description: Bytes, idempotencyKey: Bytes, conflictStrategy: int)

  const NOT_IN_LOOKUP: set<int> := {0}
  const STRATEGY_NAMES: map<int, string> := map[0 := "UNSPECIFIED", 1 := "FAIL", 2 := "REPLACE"]

  function ImportErrors(m: ImportSnapshot): (errors: seq<Error>) {
    ImportIdErrors(m) + ImportTextErrors(m) + ImportTargetErrors(m)
  }

  function ImportIdErrors(m: ImportSnapshot): (errors: seq<Error>) {
    Check(m.targetEnvironmentId > 0, "ImportSnapshotRequest", "TargetEnvironmentId", POSITIVE)
    + Check(m.sourceEnvironmentId > 0, "ImportSnapshotRequest", "SourceEnvironmentId", POSITIVE)
    + Check(m.sourceSnapshotId > 0, "ImportSnapshotRequest", "SourceSnapshotId", POSITIVE)
    + Check(m.targetProjectId > 0, "ImportSnapshotRequest", "TargetProjectId", POSITIVE)
  }

  function ImportTextErrors(m: ImportSnapshot): (errors: seq<Error>) {
    Check(RunesBetween(m.description, 2, 255), "ImportSnapshotRequest", "Description", RUNES_2_255)
    + Check(RunesBetween(m.idempotencyKey, 16, 128), "ImportSnapshotRequest", "IdempotencyKey", RUNES_16_128)
  }

  function ImportTargetErrors(m: ImportSnapshot): (errors: seq<Error>) {
    StrategyErrors(m.conflictStrategy)
    + Check(m.targetConfigId.Some? ==> m.targetConfigId.value > 0, "ImportSnapshotRequest", "TargetConfigId", POSITIVE)
  }

  const RUNES_2_255 := "value length must be between 2 and 255 runes, inclusive"
  const RUNES_16_128 := "value length must be between 16 and 128 runes, inclusive"
  const IN_LIST := "value must not be in list [UNSPECIFIED]"
  const UNDEFINED := "value must be one of the defined enum values"

  function StrategyErrors(strategy: int): (errors: seq<Error>) {
    Check(strategy !in NOT_IN_LOOKUP, "ImportSnapshotRequest", "ConflictStrategy", IN_LIST)
    + Check(strategy in STRATEGY_NAMES, "ImportSnapshotRequest", "ConflictStrategy", UNDEFINED)
  }

  method ValidateImport(m: Option<ImportSnapshot>, all: bool) returns (r: Option<Error>)
    ensures r == if m.None? then None else Outcome(all, "ImportSnapshotRequest", ImportErrors(m.value))
  {
    if m.None? {
      return None;
    }
    var errors, failed := CheckImportIds(m.value, all);
    if failed.Some? {
      return failed;
    }
    var more;
    more, failed := CheckImportTexts(m.value, all);
    if failed.Some? {
      return failed;
    }
    errors := errors + more;
    more, failed := CheckImportTarget(m.value, all);
    if failed.Some? {
      return failed;
    }
    errors := errors + more;
    if |errors| > 0 {
      return Some(MultiError("ImportSnapshotRequest", errors));
    }
    return None;
  }

  /** The first part of the body: the four ids. */
  method CheckImportIds(m: ImportSnapshot, all: bool) returns (errors: seq<Error>, failed: Option<Error>)
    ensures failed.None? ==> errors == ImportIdErrors(m)
    ensures !all ==> failed == Outcome(false, "ImportSnapshotRequest", ImportIdErrors(m))
    ensures all ==> failed.None?
  {
    errors, failed := [], None;
    if m.targetEnvironmentId <= 0 {
      var err := Violation("ImportSnapshotRequest", "TargetEnvironmentId", POSITIVE, None);
      if !all { return errors, Some(err); }
      errors := errors + [err];
    }
    if m.sourceEnvironmentId <= 0 {
      var err := Violation("ImportSnapshotRequest", "SourceEnvironmentId", POSITIVE, None);
      if !all { return errors, Some(err); }
      errors := errors + [err];
    }
    if m.sourceSnapshotId <= 0 {
      var err := Violation("ImportSnapshotRequest", "SourceSnapshotId", POSITIVE, None);
      if !all { return errors, Some(err); }
      errors := errors + [err];
    }
    if m.targetProjectId <= 0 {
      var err := Violation("ImportSnapshotRequest", "TargetProjectId", POSITIVE, None);
      if !all { return errors, Some(err); }
      errors := errors + [err];
    }
  }

  /** The second part of the same body: the two texts. */
  method CheckImportTexts(m: ImportSnapshot, all: bool) returns (errors: seq<Error>, failed: Option<Error>)
    ensures failed.None? ==> errors == ImportTextErrors(m)
    ensures !all ==> failed == Outcome(false, "ImportSnapshotRequest", ImportTextErrors(m))
    ensures all ==> failed.None?
  {
    errors, failed := [], None;
    var l := RuneCount(m.description);
    if l < 2 || l > 255 {
      var err := Violation("ImportSnapshotRequest", "Description", RUNES_2_255, None);
      if !all { return errors, Some(err); }
      errors := errors + [err];
    }
    l := RuneCount(m.idempotencyKey);
    if l < 16 || l > 128 {
      var err := Violation("ImportSnapshotRequest", "IdempotencyKey", RUNES_16_128, None);
      if !all { return errors, Some(err); }
      errors := errors + [err];
    }
  }

  /** The last part of the same body: strategy and the optional target. */
  method CheckImportTarget(m: ImportSnapshot, all: bool) returns (errors: seq<Error>, failed: Option<Error>)
    ensures failed.None? ==> errors == ImportTargetErrors(m)
    ensures !all ==> failed == Outcome(false, "ImportSnapshotRequest", ImportTargetErrors(m))
    ensures all ==> failed.None?
  {
    errors, failed := [], None;
    if m.conflictStrategy in NOT_IN_LOOKUP {
      var err := Violation("ImportSnapshotRequest", "ConflictStrategy", IN_LIST, None);
      if !all { return errors, Some(err); }
      errors := errors + [err];
    }
    if m.conflictStrategy !in STRATEGY_NAMES {
      var err := Violation("ImportSnapshotRequest", "ConflictStrategy", UNDEFINED, None);
      if !all { return errors, Some(err); }
      errors := errors + [err];
    }
    if m.targetConfigId.Some? {
      if m.targetConfigId.value <= 0 {
        var err := Violation("ImportSnapshotRequest", "TargetConfigId", POSITIVE, None);
        if !all { return errors, Some(err); }
        errors := errors + [err];
      }
    }
  }

  /** Accepted exactly when every id is positive, both texts are in bounds and the strategy is FAIL or REPLACE. */
  lemma {:induction false} ImportAccepted(m: ImportSnapshot, all: bool)
    ensures Outcome(all, "ImportSnapshotRequest", ImportErrors(m)).None?
       <==> && m.targetEnvironmentId > 0 && m.sourceEnvironmentId > 0 && m.sourceSnapshotId > 0 && m.targetProjectId > 0
            && (m.targetConfigId.Some? ==> m.targetConfigId.value > 0)
            && 2 <= RuneCount(m.description) <= 255 && 16 <= RuneCount(m.idempotencyKey) <= 128
            && (m.conflictStrategy == 1 || m.conflictStrategy == 2)
    ensures |StrategyErrors(m.conflictStrategy)| == if m.conflictStrategy == 1 || m.conflictStrategy == 2 then 0 else 1
  {
  }

  /** The field that a fail-fast failure names, or nothing. */
  function FirstField(errors: seq<Error>): (field: string) {
    var r := Outcome(false, "", errors);
    if r.Some? && r.value.Violation? then r.value.field else ""
  }

  /** In fail-fast mode the ids report first, in order, then the texts, the strategy and the optional target. */
  lemma {:induction false} ImportReported(m: ImportSnapshot)
    ensures FirstField(ImportErrors(m))
         == if m.targetEnvironmentId <= 0 then "TargetEnvironmentId"
            else if m.sourceEnvironmentId <= 0 then "SourceEnvironmentId"
            else if m.sourceSnapshotId <= 0 then "SourceSnapshotId"
            else if m.targetProjectId <= 0 then "TargetProjectId"
            else if !(2 <= RuneCount(m.description) <= 255) then "Description"
            else if !(16 <= RuneCount(m.idempotencyKey) <= 128) then "IdempotencyKey"
            else if m.conflictStrategy != 1 && m.conflictStrategy != 2 then "ConflictStrategy"
            else if m.targetConfigId.Some? && m.targetConfigId.value <= 0 then "TargetConfigId"
            else ""
  {
  }
}
