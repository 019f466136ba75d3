/** The User model: the schema's aggregating password validator, the field defaults and
    normalisation applied when a user document is built, and what a save accepts. */
module UserModel {
  import opened Base
  import opened Text

  const MinLength: nat := 8
  /** The character class of the special-character rule. */
  const SpecialChars: string := "!@#$%^&*()_+-=[]{};':\"\\|,.<>/?"
  const WeakPasswords: seq<string> := ["password", "123456", "qwerty", "letmein"]
  const DefaultProfilePic: string := ""
  const DefaultStatus: string := "Hey there! I am using Task Manager"
  /** Every message about the password path starts with this word. */
  const PasswordWord: string := "Password"
  const PolicyPrefix: string := PasswordWord + " must: "
  const RequiredMessage: string := PasswordWord + " is required"
  const MinLengthMessage: string := PasswordWord + " must be at least 8 characters long"

  /** A stored user. `password` holds whatever the controller put there (the hash). */
  datatype User = User(id: UserId, name: string, email: string, password: string,
                       profilePic: Option<string>, status: string)

  /** A user as a default query returns it: the password path is not selected. */
  datatype PublicUser = PublicUser(id: UserId, name: string, email: string,
                                   profilePic: Option<string>, status: string)

  function Public(u: User): PublicUser {
    PublicUser(u.id, u.name, u.email, u.profilePic, u.status)
  }

  /** Nothing about the password reaches a public view. */
  lemma PublicIgnoresPassword(u: User, other: string)
    ensures Public(u.(password := other)) == Public(u)
    ensures Public(u).id == u.id && Public(u).name == u.name && Public(u).email == u.email
  {
  }

  // ----- The aggregating password validator -----

  /** The rules in the order the validator tests them. */
  datatype Rule = LengthRule | SpecialRule | NumberRule | UppercaseRule | LowercaseRule
                | WeakRule | NameRule

  const Rules: seq<Rule> := [LengthRule, SpecialRule, NumberRule, UppercaseRule, LowercaseRule,
                             WeakRule, NameRule]

  function Rank(r: Rule): nat {
    match r
    case LengthRule => 0
    case SpecialRule => 1
    case NumberRule => 2
    case UppercaseRule => 3
    case LowercaseRule => 4
    case WeakRule => 5
    case NameRule => 6
  }

  function Message(r: Rule): string {
    match r
    case LengthRule => "be at least 8 characters long"
    case SpecialRule => "contain at least one special character"
    case NumberRule => "contain at least one number"
    case UppercaseRule => "contain at least one uppercase letter"
    case LowercaseRule => "contain at least one lowercase letter"
    case WeakRule => "avoid common weak passwords"
    case NameRule => "not contain your name or parts of your name"
  }

  /** What the validator reads from the document it validates (`this`). */
  datatype NameContext = NameContext(passwordModified: bool, name: string)

  predicate HasCharIn(s: string, chars: string) {
    exists i | 0 <= i < |s| :: s[i] in chars
  }

  predicate HasCharBetween(s: string, lo: char, hi: char) {
    exists i | 0 <= i < |s| :: lo <= s[i] <= hi
  }

  predicate IsWeak(value: string) {
    exists w | w in WeakPasswords :: Contains(Lower(value), w)
  }

  /** The name rule is consulted only for a modified password, a non-empty name, and a trimmed
      name longer than three characters. */
  predicate NameRuleApplies(ctx: NameContext) {
    ctx.passwordModified && ctx.name != "" && Utf16Length(Trim(ctx.name)) > 3
  }

  /** The parts of a split name that are at least four characters long, in order. */
  function SignificantParts(parts: seq<string>): (r: seq<string>)
    ensures forall p | p in r :: p in parts && Utf16Length(p) >= 4
    ensures forall p | p in parts && Utf16Length(p) >= 4 :: p in r
  {
    if parts == [] then []
    else (if Utf16Length(parts[0]) >= 4 then [parts[0]] else []) + SignificantParts(parts[1..])
  }

  predicate ContainsNamePart(value: string, name: string) {
    exists p | p in SignificantParts(SplitWs(Lower(Trim(name)))) :: Contains(Lower(value), p)
  }

  predicate Holds(r: Rule, value: string, ctx: NameContext) {
    match r
    case LengthRule => Utf16Length(value) >= MinLength
    case SpecialRule => HasCharIn(value, SpecialChars)
    case NumberRule => HasCharBetween(value, '0', '9')
    case UppercaseRule => HasCharBetween(value, 'A', 'Z')
    case LowercaseRule => HasCharBetween(value, 'a', 'z')
    case WeakRule => !IsWeak(value)
    case NameRule => !(NameRuleApplies(ctx) && ContainsNamePart(value, ctx.name))
  }

  /** The one-rule list of failures of `r`. */
  function Check(r: Rule, value: string, ctx: NameContext): seq<Rule> {
    if Holds(r, value, ctx) then [] else [r]
  }

  /** The rules of `rules` that `value` fails, in the order of `rules`. */
  function Failing(rules: seq<Rule>, value: string, ctx: NameContext): (f: seq<Rule>)
    ensures |f| <= |rules|
  {
    if rules == [] then []
    else Failing(rules[..|rules| - 1], value, ctx) + Check(rules[|rules| - 1], value, ctx)
  }

  /** A rule is among the failures exactly when it is one of `rules` and does not hold. */
  lemma {:induction false} FailingMembers(rules: seq<Rule>, value: string, ctx: NameContext, r: Rule)
    ensures r in Failing(rules, value, ctx) <==> r in rules && !Holds(r, value, ctx)
  {
    if rules != [] {
      var init := rules[..|rules| - 1];
      FailingMembers(init, value, ctx, r);
      assert rules == init + [rules[|rules| - 1]];
    }
  }

  function FailedRules(value: string, ctx: NameContext): seq<Rule> {
    Failing(Rules, value, ctx)
  }

  function Messages(f: seq<Rule>): (m: seq<string>)
    ensures |m| == |f|
  {
    if f == [] then [] else [Message(f[0])] + Messages(f[1..])
  }

  /** The text of the single error the validator throws for the failed rules `f`. */
  function PolicyMessage(f: seq<Rule>): string {
    PolicyPrefix + Join(Messages(f), ", ")
  }

  lemma {:induction false} MessagesSnoc(f: seq<Rule>, r: Rule)
    ensures Messages(f + [r]) == Messages(f) + [Message(r)]
  {
    if f == [] {
      assert [] + [r] == [r];
    } else {
      assert (f + [r])[1..] == f[1..] + [r];
      MessagesSnoc(f[1..], r);
    }
  }

  datatype Verdict = Accepted | Rejected(message: string)

  /** The failed rules are exactly the rules that do not hold. */
  lemma FailedRulesEmpty(value: string, ctx: NameContext)
    ensures FailedRules(value, ctx) == [] <==> forall r | r in Rules :: Holds(r, value, ctx)
  {
    var f := FailedRules(value, ctx);
    if f != [] {
      FailingMembers(Rules, value, ctx, f[0]);
    } else {
      forall r | r in Rules ensures Holds(r, value, ctx) {
        FailingMembers(Rules, value, ctx, r);
      }
    }
  }

  /** The failed rules, spelled out rule by rule in the order the validator tests them. */
  lemma FailedRulesSpelled(value: string, ctx: NameContext)
    ensures FailedRules(value, ctx)
         == [] + Check(LengthRule, value, ctx) + Check(SpecialRule, value, ctx)
            + Check(NumberRule, value, ctx) + Check(UppercaseRule, value, ctx)
            + Check(LowercaseRule, value, ctx) + Check(WeakRule, value, ctx)
            + Check(NameRule, value, ctx)
  {
    var p6 := [LengthRule, SpecialRule, NumberRule, UppercaseRule, LowercaseRule, WeakRule];
    var p5 := [LengthRule, SpecialRule, NumberRule, UppercaseRule, LowercaseRule];
    var p4 := [LengthRule, SpecialRule, NumberRule, UppercaseRule];
    var p3 := [LengthRule, SpecialRule, NumberRule];
    var p2 := [LengthRule, SpecialRule];
    var p1 := [LengthRule];
    assert Rules[..6] == p6 && p6[..5] == p5 && p5[..4] == p4 && p4[..3] == p3;
    assert p3[..2] == p2 && p2[..1] == p1 && p1[..0] == [];
    assert Failing(p1, value, ctx) == [] + Check(LengthRule, value, ctx);
    assert Failing(p2, value, ctx) == Failing(p1, value, ctx) + Check(SpecialRule, value, ctx);
    assert Failing(p3, value, ctx) == Failing(p2, value, ctx) + Check(NumberRule, value, ctx);
    assert Failing(p4, value, ctx) == Failing(p3, value, ctx) + Check(UppercaseRule, value, ctx);
    assert Failing(p5, value, ctx) == Failing(p4, value, ctx) + Check(LowercaseRule, value, ctx);
    assert Failing(p6, value, ctx) == Failing(p5, value, ctx) + Check(WeakRule, value, ctx);
    assert Failing(Rules, value, ctx) == Failing(p6, value, ctx) + Check(NameRule, value, ctx);
  }

  /** One `if (...) errors.push(...)` step of the validator: the message of rule `r` is appended
      when that rule fails. */
  method PushIfFailed(errors: seq<string>, ghost failed: seq<Rule>, r: Rule, fails: bool,
                      value: string, ctx: NameContext)
    returns (errors': seq<string>)
    requires errors == Messages(failed)
    requires fails == !Holds(r, value, ctx)
    ensures errors' == Messages(failed + Check(r, value, ctx))
  {
    if fails {
      MessagesSnoc(failed, r);
      errors' := errors + [Message(r)];
    } else {
      assert failed + [] == failed;
      errors' := errors;
    }
  }

  /** The name step of the validator: whether a significant part of the trimmed, lower-cased
      name occurs in the lower-cased password, consulted only when the name rule applies. */
  method MentionsName(value: string, ctx: NameContext) returns (mentions: bool)
    ensures mentions == !Holds(NameRule, value, ctx)
  {
    mentions := false;
    if ctx.passwordModified && ctx.name != "" {
      var name := Trim(ctx.name);
      if Utf16Length(name) > 3 {
        var significant := SignificantParts(SplitWs(Lower(name)));
        mentions := exists p | p in significant :: Contains(Lower(value), p);
        assert mentions == ContainsNamePart(value, ctx.name);
      }
    }
    assert mentions == (NameRuleApplies(ctx) && ContainsNamePart(value, ctx.name));
  }

  /** The schema's custom password validator. It tests every rule, collects the message of each
      failed one in rule order, and throws one error listing all of them. */
  method PasswordValidator(value: string, ctx: NameContext) returns (v: Verdict)
    ensures v.Accepted? <==> forall r | r in Rules :: Holds(r, value, ctx)
    ensures v.Rejected? ==> v.message == PolicyMessage(FailedRules(value, ctx))
  {
    var errors: seq<string> := [];
    ghost var failed: seq<Rule> := [];
    errors := PushIfFailed(errors, failed, LengthRule, Utf16Length(value) < MinLength, value, ctx);
    failed := failed + Check(LengthRule, value, ctx);
    errors := PushIfFailed(errors, failed, SpecialRule, !HasCharIn(value, SpecialChars), value, ctx);
    failed := failed + Check(SpecialRule, value, ctx);
    errors := PushIfFailed(errors, failed, NumberRule, !HasCharBetween(value, '0', '9'), value, ctx);
    failed := failed + Check(NumberRule, value, ctx);
    errors := PushIfFailed(errors, failed, UppercaseRule, !HasCharBetween(value, 'A', 'Z'), value, ctx);
    failed := failed + Check(UppercaseRule, value, ctx);
    errors := PushIfFailed(errors, failed, LowercaseRule, !HasCharBetween(value, 'a', 'z'), value, ctx);
    failed := failed + Check(LowercaseRule, value, ctx);
    errors := PushIfFailed(errors, failed, WeakRule, IsWeak(value), value, ctx);
    failed := failed + Check(WeakRule, value, ctx);
    var mentionsName := MentionsName(value, ctx);
    errors := PushIfFailed(errors, failed, NameRule, mentionsName, value, ctx);
    failed := failed + Check(NameRule, value, ctx);
    FailedRulesSpelled(value, ctx);
    FailedRulesEmpty(value, ctx);
    if |errors| > 0 {
      v := Rejected(PolicyPrefix + Join(errors, ", "));
    } else {
      v := Accepted;
    }
  }

  /** The failed rules are listed in the fixed rule order: length, special character, number,
      uppercase, lowercase, weak password, name. */
  lemma {:induction false} FailingKeepsOrder(rules: seq<Rule>, value: string, ctx: NameContext)
    requires forall i, j | 0 <= i < j < |rules| :: Rank(rules[i]) < Rank(rules[j])
    ensures forall i, j | 0 <= i < j < |Failing(rules, value, ctx)| ::
      Rank(Failing(rules, value, ctx)[i]) < Rank(Failing(rules, value, ctx)[j])
  {
    if rules != [] {
      var init := rules[..|rules| - 1];
      var last := rules[|rules| - 1];
      FailingKeepsOrder(init, value, ctx);
      var front := Failing(init, value, ctx);
      forall r | r in front ensures Rank(r) < Rank(last) {
        FailingMembers(init, value, ctx, r);
        var k :| 0 <= k < |init| && init[k] == r;
        assert rules[k] == r;
      }
    }
  }

  lemma FailedRulesInRuleOrder(value: string, ctx: NameContext)
    ensures forall i, j | 0 <= i < j < |FailedRules(value, ctx)| ::
      Rank(FailedRules(value, ctx)[i]) < Rank(FailedRules(value, ctx)[j])
  {
    FailingKeepsOrder(Rules, value, ctx);
  }

  // ----- Building and saving a user document -----

  /** A field of the object a document is built from: left out, explicitly `null`, or given. */
  datatype Supplied<T> = Absent | Null | Given(value: T)

  /** The `lowercase` and `trim` setters of the email path, which also apply to query filters. */
  function NormalizeEmail(email: string): string {
    Trim(Lower(email))
  }

  /** A normalised email is its own normal form, so stored emails match themselves. */
  lemma NormalizeEmailIdempotent(email: string)
    ensures NormalizeEmail(NormalizeEmail(email)) == NormalizeEmail(email)
  {
    var x := Lower(email);
    LowerIdempotent(email);
    TrimLowerCommute(x);
    TrimLowerCommute(Trim(x));
    TrimIdempotent(x);
  }

  /** Only a non-empty email normalises to a non-empty one. */
  lemma NormalizedEmailNonEmpty(email: string)
    ensures NormalizeEmail(email) != "" ==> email != ""
  {
  }

  /** `new User({...})`: the name is trimmed, the email lower-cased and trimmed, `profilePic`
      defaults to '' only when it is left out (a `null` one stays `null`), and `status` takes the
      greeting. */
  function NewUser(id: UserId, name: string, email: string, password: string,
                   profilePic: Supplied<string>): (u: User)
    ensures u.id == id && u.password == password
    ensures u.name == Trim(name) && u.email == Lower(Trim(email))
    ensures u.status == DefaultStatus
    ensures profilePic.Absent? ==> u.profilePic == Some(DefaultProfilePic)
    ensures profilePic.Null? ==> u.profilePic == None
    ensures profilePic.Given? ==> u.profilePic == Some(profilePic.value)
  {
    TrimLowerCommute(email);
    var pic := match profilePic
      case Absent => Some(DefaultProfilePic)
      case Null => None
      case Given(p) => Some(p);
    User(id, Trim(name), NormalizeEmail(email), password, pic, DefaultStatus)
  }

  /** The first validator of the password path that rejects `password`, in the schema's order:
      `required`, `minlength`, then the custom validator. */
  function PasswordPathError(password: string, ctx: NameContext): Option<string> {
    if password == "" then Some(RequiredMessage)
    else if Utf16Length(password) < MinLength then Some(MinLengthMessage)
    else if FailedRules(password, ctx) != [] then Some(PolicyMessage(FailedRules(password, ctx)))
    else None
  }

  /** The password path accepts exactly a present password of at least eight characters that
      every rule of the custom validator accepts. */
  lemma PasswordPathAccepts(password: string, ctx: NameContext)
    ensures PasswordPathError(password, ctx).None? <==>
      password != "" && Utf16Length(password) >= MinLength
      && forall r | r in Rules :: Holds(r, password, ctx)
  {
    FailedRulesEmpty(password, ctx);
  }

  /** Every message of the password path starts with "Password". */
  lemma PasswordPathErrorMentionsPassword(password: string, ctx: NameContext)
    ensures PasswordPathError(password, ctx).Some? ==> PasswordWord <= PasswordPathError(password, ctx).value
  {
    var e := PasswordPathError(password, ctx);
    if password == "" {
      PrefixOfConcat(PasswordWord, " is required");
    } else if Utf16Length(password) < MinLength {
      PrefixOfConcat(PasswordWord, " must be at least 8 characters long");
    } else {
      PolicyMessageMentionsPassword(FailedRules(password, ctx));
    }
  }

  lemma PolicyMessageMentionsPassword(f: seq<Rule>)
    ensures PasswordWord <= PolicyMessage(f)
  {
    var list := Join(Messages(f), ", ");
    assert PolicyPrefix + list == PasswordWord + (" must: " + list);
    PrefixOfConcat(PasswordWord, " must: " + list);
  }

  lemma PrefixOfConcat(a: string, b: string)
    ensures a <= a + b
  {
    assert (a + b)[..|a|] == a;
  }

  /** Mongoose's validation of the password path on save. */
  method ValidatePasswordPath(password: string, ctx: NameContext) returns (e: Option<string>)
    ensures e == PasswordPathError(password, ctx)
  {
    if password == "" {
      return Some(RequiredMessage);
    }
    if Utf16Length(password) < MinLength {
      return Some(MinLengthMessage);
    }
    var v := PasswordValidator(password, ctx);
    FailedRulesEmpty(password, ctx);
    if v.Rejected? {
      e := Some(v.message);
    } else {
      e := None;
    }
  }

  /** A save succeeds when the required name and email are present and the password path
      validates. */
  predicate SaveAccepts(u: User, passwordModified: bool) {
    u.name != "" && u.email != ""
    && PasswordPathError(u.password, NameContext(passwordModified, u.name)).None?
  }

  /** `User.findOne({ email })`: the first stored user whose email equals `email`. */
  function FindByEmail(users: seq<User>, email: string): (r: Option<nat>)
    ensures r.Some? ==> r.value < |users| && users[r.value].email == email
    ensures r.Some? ==> forall j | 0 <= j < r.value :: users[j].email != email
    ensures r.None? <==> forall j | 0 <= j < |users| :: users[j].email != email
  {
    if users == [] then None
    else if users[0].email == email then Some(0)
    else match FindByEmail(users[1..], email)
      case None => None
      case Some(k) => Some(k + 1)
  }
}
