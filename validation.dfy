/**
 * The structural rules and the sanitizers of src/lib/validation.js.
 *
 * Each export of validation.js returns a list of express-validator chains.
 * A chain of rules is modelled as a function from the request body to the
 * entries it adds to `validationResult(req).errors`, in chain order; a
 * sanitizer chain is modelled as a function from body to body. XSS
 * stripping (`xss`) and HTML escaping (`escape`) are foreign code and are
 * passed in as functions; `trim` is written out, because the rules measure
 * trimmed values.
 */
module Validation {

  /** One entry of the error list: the field (`param`) and the message. */
  datatype FieldError = FieldError(param: string, msg: string)

  /** A request body: field name to submitted text. */
  type Body = map<string, string>

  /** A body field; a field that was not submitted reads as the empty string. */
  function Field(b: Body, k: string): string
  {
    if k in b then b[k] else ""
  }

  // ---------------------------------------------------------------------
  // trim: removes the characters of JavaScript's `\s` class at both ends.
  // ---------------------------------------------------------------------

  predicate IsSpace(c: char)
  {
    || c == '\t' || c == '\n' || c == '\U{B}' || c == '\U{C}' || c == '\r' || c == ' '
    || c == '\U{A0}' || c == '\U{1680}' || ('\U{2000}' <= c <= '\U{200A}')
    || c == '\U{2028}' || c == '\U{2029}' || c == '\U{202F}' || c == '\U{205F}'
    || c == '\U{3000}' || c == '\U{FEFF}'
  }

  /** `s` without its leading white space. */
  function TrimStart(s: string): (r: string)
    ensures |r| <= |s| && r == s[|s| - |r|..]
    ensures r == [] || !IsSpace(r[0])
    ensures forall k :: 0 <= k < |s| - |r| ==> IsSpace(s[k])
  {
    if s != [] && IsSpace(s[0]) then TrimStart(s[1..]) else s
  }

  /** `s` without its trailing white space. */
  function TrimEnd(s: string): (r: string)
    ensures |r| <= |s| && r == s[..|r|]
    ensures r == [] || !IsSpace(r[|r| - 1])
    ensures forall k :: |r| <= k < |s| ==> IsSpace(s[k])
  {
    if s != [] && IsSpace(s[|s| - 1]) then TrimEnd(s[..|s| - 1]) else s
  }

  /** express-validator's `trim()`: white space removed at both ends. */
  function Trim(s: string): string
  {
    TrimEnd(TrimStart(s))
  }

  /** Trimming only shortens, and is empty exactly for blank text. */
  lemma TrimBounds(s: string)
    ensures |Trim(s)| <= |s|
    ensures Trim(s) == [] <==> forall k :: 0 <= k < |s| ==> IsSpace(s[k])
  {
    var a := TrimStart(s);
    if TrimEnd(a) == [] {
      // `a` cannot start with white space, and all of it would be trailing white space.
      assert a == [];
    }
  }

  /** Text without white space at either end is left as it is. */
  lemma TrimOfTrimmed(s: string)
    requires s == [] || (!IsSpace(s[0]) && !IsSpace(s[|s| - 1]))
    ensures Trim(s) == s
  {
  }

  // ---------------------------------------------------------------------
  // The rules.
  // ---------------------------------------------------------------------

  const MaxTextLength := 400
  const MaxFieldLength := 64
  const MinPasswordLength := 8

  const NameEmpty := "Nafn má ekki vera tómt"
  const NameTooLong := "Nafn má að hámarki vera 64 stafir"
  const UsernameEmpty := "Notendanafn má ekki vera tómt"
  const UsernameTooLong := "Notendanafn má að hámarki vera 64 stafir"
  const PasswordTooShort := "Lykilorð má ekki vera minna en 8 stafir"
  const PasswordTooLong := "Lykilorð má að hámarki vera 64 stafir"

  /** The word the over-long message starts with: comment, or else description. */
  function TextFieldLabel(textField: string): string
  {
    if textField == "comment" then "Athugasemd" else "Lýsing"
  }

  /**
   * `registrationValidationMiddleware(textField)`: the free-text field may
   * hold at most 400 characters; lengths count code points, as validator's
   * `isLength` does for surrogate pairs.
   */
  function TextFieldRule(textField: string, b: Body): (errs: seq<FieldError>)
    ensures |errs| <= 1
    ensures errs == [] <==> |Field(b, textField)| <= MaxTextLength
    ensures errs != [] ==>
      errs[0] == FieldError(textField, TextFieldLabel(textField) + " má að hámarki vera 400 stafir")
  {
    if |Field(b, textField)| > MaxTextLength then
      [FieldError(textField, TextFieldLabel(textField) + " má að hámarki vera 400 stafir")]
    else []
  }

  /**
   * The two chains of one field: `trim().isLength({ min })` and then
   * `isLength({ max })`. The `trim()` writes the trimmed value back to the
   * body, so the maximum is measured on the trimmed value too. A trimmed
   * length within `[min, max]` draws nothing, and otherwise exactly one
   * message.
   */
  function LengthRules(param: string, value: string, min: nat, max: nat, short: string, long: string)
    : (errs: seq<FieldError>)
    requires min <= max && short != long
    ensures |errs| <= 1
    ensures errs == [] <==> min <= |Trim(value)| <= max
    ensures FieldError(param, short) in errs <==> |Trim(value)| < min
    ensures FieldError(param, long) in errs <==> |Trim(value)| > max
    ensures forall e :: e in errs ==> e.param == param
  {
    var v := Trim(value);
    if |v| < min then [FieldError(param, short)]
    else if |v| > max then [FieldError(param, long)]
    else []
  }

  /** The one entry a field's chains can draw is its minimum-length or its maximum-length message. */
  lemma LengthRulesEntries(param: string, value: string, min: nat, max: nat, short: string, long: string)
    requires min <= max && short != long
    ensures forall e :: e in LengthRules(param, value, min, max, short, long) ==>
      e == FieldError(param, short) || e == FieldError(param, long)
  {
  }

  /** The six entries `registrationValidation()` can produce. */
  predicate IsRegistrationMessage(e: FieldError)
  {
    || e == FieldError("name", NameEmpty) || e == FieldError("name", NameTooLong)
    || e == FieldError("username", UsernameEmpty) || e == FieldError("username", UsernameTooLong)
    || e == FieldError("password", PasswordTooShort) || e == FieldError("password", PasswordTooLong)
  }

  /** The body's name, username and password are all of acceptable trimmed length. */
  predicate RegistrationInBounds(b: Body)
  {
    && 1 <= |Trim(Field(b, "name"))| <= MaxFieldLength
    && 1 <= |Trim(Field(b, "username"))| <= MaxFieldLength
    && MinPasswordLength <= |Trim(Field(b, "password"))| <= MaxFieldLength
  }

  /**
   * `registrationValidation()`: name, then username, then password, each
   * field drawing at most one entry. When the list is empty and which
   * entries it can hold is stated by the lemmas below.
   */
  function RegistrationRules(b: Body): (errs: seq<FieldError>)
    ensures |errs| <= 3
  {
    MessagesDistinct();
    var name := LengthRules("name", Field(b, "name"), 1, MaxFieldLength, NameEmpty, NameTooLong);
    var user := LengthRules("username", Field(b, "username"), 1, MaxFieldLength, UsernameEmpty, UsernameTooLong);
    var pass := LengthRules("password", Field(b, "password"), MinPasswordLength, MaxFieldLength,
                            PasswordTooShort, PasswordTooLong);
    name + user + pass
  }

  /** The registration form passes exactly when all three fields are of acceptable length. */
  lemma RegistrationPassesIff(b: Body)
    ensures RegistrationRules(b) == [] <==> RegistrationInBounds(b)
  {
    MessagesDistinct();
  }

  /** The registration rules produce nothing but their six messages. */
  lemma RegistrationOnlyMessages(b: Body)
    ensures forall e :: e in RegistrationRules(b) ==> IsRegistrationMessage(e)
  {
    MessagesDistinct();
    var name := LengthRules("name", Field(b, "name"), 1, MaxFieldLength, NameEmpty, NameTooLong);
    var user := LengthRules("username", Field(b, "username"), 1, MaxFieldLength, UsernameEmpty, UsernameTooLong);
    var pass := LengthRules("password", Field(b, "password"), MinPasswordLength, MaxFieldLength,
                            PasswordTooShort, PasswordTooLong);
    LengthRulesEntries("name", Field(b, "name"), 1, MaxFieldLength, NameEmpty, NameTooLong);
    LengthRulesEntries("username", Field(b, "username"), 1, MaxFieldLength, UsernameEmpty, UsernameTooLong);
    LengthRulesEntries("password", Field(b, "password"), MinPasswordLength, MaxFieldLength,
                       PasswordTooShort, PasswordTooLong);
    forall e | e in name + user + pass ensures IsRegistrationMessage(e) {
      assert e in name || e in user || e in pass;
    }
  }

  /** The name's messages: empty after trimming, or longer than 64 after trimming. */
  lemma NameMessages(b: Body)
    ensures FieldError("name", NameEmpty) in RegistrationRules(b) <==> Trim(Field(b, "name")) == []
    ensures FieldError("name", NameTooLong) in RegistrationRules(b) <==> |Trim(Field(b, "name"))| > MaxFieldLength
  {
    MessagesDistinct();
    var name := LengthRules("name", Field(b, "name"), 1, MaxFieldLength, NameEmpty, NameTooLong);
    var user := LengthRules("username", Field(b, "username"), 1, MaxFieldLength, UsernameEmpty, UsernameTooLong);
    var pass := LengthRules("password", Field(b, "password"), MinPasswordLength, MaxFieldLength,
                            PasswordTooShort, PasswordTooLong);
    FoundInOwnPart(FieldError("name", NameEmpty), name, user, pass, "name", "username", "password");
    FoundInOwnPart(FieldError("name", NameTooLong), name, user, pass, "name", "username", "password");
  }

  /** The username's messages, by the same rules as the name's. */
  lemma UsernameMessages(b: Body)
    ensures FieldError("username", UsernameEmpty) in RegistrationRules(b) <==> Trim(Field(b, "username")) == []
    ensures FieldError("username", UsernameTooLong) in RegistrationRules(b) <==>
      |Trim(Field(b, "username"))| > MaxFieldLength
  {
    MessagesDistinct();
    var name := LengthRules("name", Field(b, "name"), 1, MaxFieldLength, NameEmpty, NameTooLong);
    var user := LengthRules("username", Field(b, "username"), 1, MaxFieldLength, UsernameEmpty, UsernameTooLong);
    var pass := LengthRules("password", Field(b, "password"), MinPasswordLength, MaxFieldLength,
                            PasswordTooShort, PasswordTooLong);
    FoundInOwnPart(FieldError("username", UsernameEmpty), name, user, pass, "name", "username", "password");
    FoundInOwnPart(FieldError("username", UsernameTooLong), name, user, pass, "name", "username", "password");
  }

  /** The password's messages: shorter than 8 after trimming, or longer than 64. */
  lemma PasswordMessages(b: Body)
    ensures FieldError("password", PasswordTooShort) in RegistrationRules(b) <==>
      |Trim(Field(b, "password"))| < MinPasswordLength
    ensures FieldError("password", PasswordTooLong) in RegistrationRules(b) <==>
      |Trim(Field(b, "password"))| > MaxFieldLength
  {
    MessagesDistinct();
    var name := LengthRules("name", Field(b, "name"), 1, MaxFieldLength, NameEmpty, NameTooLong);
    var user := LengthRules("username", Field(b, "username"), 1, MaxFieldLength, UsernameEmpty, UsernameTooLong);
    var pass := LengthRules("password", Field(b, "password"), MinPasswordLength, MaxFieldLength,
                            PasswordTooShort, PasswordTooLong);
    FoundInOwnPart(FieldError("password", PasswordTooShort), name, user, pass, "name", "username", "password");
    FoundInOwnPart(FieldError("password", PasswordTooLong), name, user, pass, "name", "username", "password");
  }

  /**
   * In a list made of three fields' entries, one after the other, an entry
   * is found exactly when it is among the entries of its own field.
   */
  lemma FoundInOwnPart(x: FieldError, a: seq<FieldError>, b: seq<FieldError>, c: seq<FieldError>,
                       pa: string, pb: string, pc: string)
    requires pa != pb && pa != pc && pb != pc
    requires forall e :: e in a ==> e.param == pa
    requires forall e :: e in b ==> e.param == pb
    requires forall e :: e in c ==> e.param == pc
    ensures x.param == pa ==> (x in a + b + c <==> x in a)
    ensures x.param == pb ==> (x in a + b + c <==> x in b)
    ensures x.param == pc ==> (x in a + b + c <==> x in c)
  {
    assert x in a + b + c <==> x in a || x in b || x in c;
  }

  /** The three field names differ, and so do the two messages of each field. */
  lemma MessagesDistinct()
    ensures "name" != "username" && "name" != "password" && "username" != "password"
    ensures NameEmpty != NameTooLong && UsernameEmpty != UsernameTooLong && PasswordTooShort != PasswordTooLong
  {
    assert |"name"| == 4 && |"username"| == 8 && "username"[0] != "password"[0];
    assert |NameEmpty| == 22 && |NameTooLong| == 33;
    assert |UsernameEmpty| == 29 && |UsernameTooLong| == 40;
    assert |PasswordTooShort| == 39 && |PasswordTooLong| == 37;
  }

  /** A name of at most 64 characters that is not blank draws no entry for 'name' at all. */
  lemma ShortNamePasses(b: Body)
    requires |Field(b, "name")| <= MaxFieldLength
    requires exists k :: 0 <= k < |Field(b, "name")| && !IsSpace(Field(b, "name")[k])
    ensures forall e :: e in RegistrationRules(b) ==> e.param != "name"
  {
    TrimBounds(Field(b, "name"));
    NameMessages(b);
    RegistrationOnlyMessages(b);
    MessagesDistinct();
  }

  /** A 65-character name without white space at its ends draws the max-length message. */
  lemma LongNameFails(b: Body)
    requires |Field(b, "name")| == MaxFieldLength + 1
    requires !IsSpace(Field(b, "name")[0]) && !IsSpace(Field(b, "name")[MaxFieldLength])
    ensures FieldError("name", NameTooLong) in RegistrationRules(b)
    ensures FieldError("name", NameEmpty) !in RegistrationRules(b)
  {
    TrimOfTrimmed(Field(b, "name"));
    NameMessages(b);
  }

  /** An empty or missing password draws the minimum-length message and not the maximum one. */
  lemma EmptyPasswordIsTooShort(b: Body)
    requires Field(b, "password") == ""
    ensures FieldError("password", PasswordTooShort) in RegistrationRules(b)
    ensures FieldError("password", PasswordTooLong) !in RegistrationRules(b)
  {
    assert Trim("") == "";
    PasswordMessages(b);
  }

  // ---------------------------------------------------------------------
  // The sanitizers.
  // ---------------------------------------------------------------------

  /** One sanitizer chain on field `k`: rewrites that field when it was submitted. */
  function SanitizeField(b: Body, k: string, f: string -> string): (r: Body)
    ensures r.Keys == b.Keys
    ensures forall j :: j in b && j != k ==> r[j] == b[j]
    ensures k in b ==> r[k] == f(b[k])
  {
    if k in b then b[k := f(b[k])] else b
  }

  /** `xssSanitizationMiddleware(textField)`: `xss` on 'name', then on `textField`. */
  function XssSanitization(textField: string, b: Body, xss: string -> string): (r: Body)
    ensures r.Keys == b.Keys
    ensures forall j :: j in b && j != "name" && j != textField ==> r[j] == b[j]
    ensures textField != "name" ==>
      ("name" in b ==> r["name"] == xss(b["name"])) &&
      (textField in b ==> r[textField] == xss(b[textField]))
  {
    SanitizeField(SanitizeField(b, "name", xss), textField, xss)
  }

  /** `sanitizationMiddleware(textField)`: `trim()` then `escape()` on 'name' and on `textField`. */
  function Sanitization(textField: string, b: Body, escape: string -> string): (r: Body)
    ensures r.Keys == b.Keys
    ensures forall j :: j in b && j != "name" && j != textField ==> r[j] == b[j]
    ensures textField != "name" ==>
      ("name" in b ==> r["name"] == escape(Trim(b["name"]))) &&
      (textField in b ==> r[textField] == escape(Trim(b[textField])))
  {
    var clean := (s: string) => escape(Trim(s));
    SanitizeField(SanitizeField(b, "name", clean), textField, clean)
  }
}
