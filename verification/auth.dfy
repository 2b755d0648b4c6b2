/** The authentication handlers: signing up, logging in, the password
    reset flow (request a one-time code, check it, set a new password) and
    reactivating a deactivated account. Hashing, token signing, e-mail and
    the avatar service are outside the model: their answers are inputs. */
module Auth {
  import opened Wrappers
  import opened Records
  import Text
  import Users

  datatype Error =
    | InputsRequired
    | NameLength
    | PasswordTooShort
    | PasswordMismatch
    | InvalidName
    | InvalidEmail
    | EmailUsed
    | StoreRejected
    | DuplicateKey
    | InvalidCredentials
    | Deactivated
    | Suspended
    | EmailRequired
    | OtpRequired
    | VerifyFailed
    | InvalidOtp
    | ResetFailed
    | PasswordsRequired
    | OldPassword
    | UserNotFound

  const MinName := 3
  const MaxName := 20
  const MinPassword := 8

  // ---------------------------------------------------------------------
  // The e-mail regular expression  /^[\w-\.]+@([\w-]+\.)+[\w-]{2,4}$/
  // ---------------------------------------------------------------------

  /** `[\w-\.]`: a letter, digit, `_`, `-` or `.`. */
  predicate IsLocalChar(c: char) {
    Text.IsAlnum(c) || c == '_' || c == '-' || c == '.'
  }

  /** `[\w-]`: a letter, digit, `_` or `-`. */
  predicate IsLabelChar(c: char) {
    Text.IsAlnum(c) || c == '_' || c == '-'
  }

  predicate AllLabelChars(s: string) {
    forall i :: 0 <= i < |s| ==> IsLabelChar(s[i])
  }

  /** The final `[\w-]{2,4}$`. */
  predicate TopLevel(t: string) {
    2 <= |t| <= 4 && AllLabelChars(t)
  }

  /** `([\w-]+\.)+[\w-]{2,4}$`: a label and a dot, then either the last part
      or more of the same. No label character is a dot, so the first dot
      always ends the first label. */
  predicate DomainRegex(d: string)
    decreases |d|
  {
    && '.' in d
    && var k := Text.IndexOf(d, '.');
    && k > 0 && AllLabelChars(d[..k])
    && (TopLevel(d[k + 1..]) || DomainRegex(d[k + 1..]))
  }

  /** The whole pattern: local characters, the first `@`, then the domain.
      No local character is an `@`, so the first `@` is the one matched. */
  predicate EmailRegex(s: string) {
    && '@' in s
    && var k := Text.IndexOf(s, '@');
    && k > 0 && (forall i :: 0 <= i < k ==> IsLocalChar(s[i]))
    && DomainRegex(s[k + 1..])
  }

  /** What the domain pattern means: at least two dot-separated parts, each
      non-empty and made of label characters, the last one 2 to 4 long. */
  predicate DomainShape(d: string) {
    PartsShape(Text.Split(d, '.'))
  }

  predicate PartsShape(parts: seq<string>) {
    && |parts| >= 2
    && AllLabels(parts)
    && 2 <= |parts[|parts| - 1]| <= 4
  }

  /** One more leading label keeps the shape of a list of parts. */
  lemma PartsShapeCons(x: string, tail: seq<string>)
    requires |tail| >= 2
    ensures PartsShape([x] + tail) <==> IsLabel(x) && PartsShape(tail)
  {
    AllLabelsCons(x, tail);
    assert ([x] + tail)[|tail|] == tail[|tail| - 1];
  }

  predicate AllLabels(ps: seq<string>) {
    forall i :: 0 <= i < |ps| ==> IsLabel(ps[i])
  }

  lemma AllLabelsCons(x: string, t: seq<string>)
    ensures AllLabels([x] + t) <==> IsLabel(x) && AllLabels(t)
  {
    if IsLabel(x) && AllLabels(t) {
      forall i | 0 <= i < |[x] + t| ensures IsLabel(([x] + t)[i]) {
        if i > 0 {
          assert ([x] + t)[i] == t[i - 1];
        }
      }
    }
    if AllLabels([x] + t) {
      forall i | 0 <= i < |t| ensures IsLabel(t[i]) {
        assert ([x] + t)[i + 1] == t[i];
      }
      assert ([x] + t)[0] == x;
    }
  }

  /** `[\w-]+`. */
  predicate IsLabel(p: string) {
    |p| > 0 && AllLabelChars(p)
  }

  lemma {:induction false} DomainRegexMeaning(d: string)
    ensures DomainRegex(d) <==> DomainShape(d)
    decreases |d|
  {
    if '.' in d {
      var k := Text.IndexOf(d, '.');
      var rest := d[k + 1..];
      DomainRegexMeaning(rest);
      if '.' !in rest {
        LastLabel(d);
      } else {
        MoreLabels(d);
        DotIsNoTopLevel(rest);
      }
    } else {
      assert Text.Split(d, '.') == [d];
    }
  }

  /** `Split` at the first separator. */
  lemma SplitFirst(d: string, sep: char)
    requires sep in d
    ensures Text.Split(d, sep) == [d[..Text.IndexOf(d, sep)]] + Text.Split(d[Text.IndexOf(d, sep) + 1..], sep)
  {
  }

  /** The domain shape with a single dot: a label, the dot, the last part. */
  lemma LastLabel(d: string)
    requires '.' in d && '.' !in d[Text.IndexOf(d, '.') + 1..]
    ensures var k := Text.IndexOf(d, '.');
            DomainShape(d) <==> k > 0 && AllLabelChars(d[..k]) && TopLevel(d[k + 1..])
    ensures !DomainRegex(d[Text.IndexOf(d, '.') + 1..])
  {
    var k := Text.IndexOf(d, '.');
    var rest := d[k + 1..];
    SplitFirst(d, '.');
    assert Text.Split(rest, '.') == [rest];
    AllLabelsCons(d[..k], [rest]);
    AllLabelsCons(rest, []);
  }

  /** The domain shape with more dots: a label, the dot, and a domain shape
      again; the rest is then no last part. */
  lemma MoreLabels(d: string)
    requires '.' in d && '.' in d[Text.IndexOf(d, '.') + 1..]
    ensures var k := Text.IndexOf(d, '.');
            DomainShape(d) <==> k > 0 && AllLabelChars(d[..k]) && DomainShape(d[k + 1..])
  {
    var k := Text.IndexOf(d, '.');
    var rest := d[k + 1..];
    SplitFirst(d, '.');
    SplitFirst(rest, '.');
    PartsShapeCons(d[..k], Text.Split(rest, '.'));
  }

  /** A part holding a dot is no last part. */
  lemma DotIsNoTopLevel(t: string)
    requires '.' in t
    ensures !TopLevel(t)
  {
    var j := Text.IndexOf(t, '.');
    assert !IsLabelChar(t[j]);
  }

  /** The e-mail pattern accepts exactly a non-empty local part of letters,
      digits, `_`, `-` and `.`, one `@`, and a domain of at least two
      dot-separated labels of letters, digits, `_` and `-` whose last label
      is 2 to 4 long. */
  lemma EmailRegexMeaning(s: string)
    ensures EmailRegex(s) <==>
              (var parts := Text.Split(s, '@');
               && |parts| == 2
               && |parts[0]| > 0 && (forall i :: 0 <= i < |parts[0]| ==> IsLocalChar(parts[0][i]))
               && DomainShape(parts[1]))
  {
    var parts := Text.Split(s, '@');
    if '@' in s {
      var k := Text.IndexOf(s, '@');
      var rest := s[k + 1..];
      assert parts == [s[..k]] + Text.Split(rest, '@');
      DomainRegexMeaning(rest);
      if '@' in rest {
        assert |Text.Split(rest, '@')| >= 2;
        if DomainRegex(rest) {
          DomainNoAt(rest);
          assert false;
        }
      } else {
        assert Text.Split(rest, '@') == [rest];
      }
    } else {
      assert parts == [s];
    }
  }

  /** A domain the pattern accepts holds no `@`. */
  lemma {:induction false} DomainNoAt(d: string)
    requires DomainRegex(d)
    ensures '@' !in d
    decreases |d|
  {
    var k := Text.IndexOf(d, '.');
    assert d == d[..k] + [d[k]] + d[k + 1..];
    if !TopLevel(d[k + 1..]) {
      DomainNoAt(d[k + 1..]);
    }
    assert '@' !in d[..k];
    assert '@' !in d[k + 1..];
  }

  // ---------------------------------------------------------------------
  // Lookups by e-mail
  // ---------------------------------------------------------------------

  /** What `findOne({ email })` may answer: a user with exactly that e-mail
      when there is one, nothing otherwise. */
  predicate EmailAnswer(users: map<UserId, User>, email: string, found: Option<UserId>) {
    && (found.Some? ==> found.value in users && users[found.value].email == email)
    && (found.None? ==> forall u :: u in users ==> users[u].email != email)
  }

  /** No two users share an e-mail (the schema's unique index). */
  predicate EmailsUnique(users: map<UserId, User>) {
    forall a, b :: a in users && b in users && a != b ==> users[a].email != users[b].email
  }

  // ---------------------------------------------------------------------
  // signup
  // ---------------------------------------------------------------------

  /** The sign-up form. `avatar` is what the avatar service answered ("" on
      failure) and `hashed` the password's hash. */
  datatype SignupForm = SignupForm(
    name: string,
    email: string,
    password: string,
    confirmPassword: string,
    avatar: string,
    hashed: string)

  /** The checks before the store is consulted, in the handler's order.
      Lengths, the match and the name pattern look at the trimmed inputs. */
  function SignupChecks(f: SignupForm): (o: Outcome<Error>)
  {
    if f.name == "" || f.email == "" || f.password == "" || f.confirmPassword == "" then Fail(InputsRequired)
    else if |Text.Trim(f.name)| < MinName || |Text.Trim(f.name)| > MaxName then Fail(NameLength)
    else if |Text.Trim(f.password)| < MinPassword then Fail(PasswordTooShort)
    else if Text.Trim(f.password) != Text.Trim(f.confirmPassword) then Fail(PasswordMismatch)
    else if !Text.NameRegex(Text.Trim(f.name), false) then Fail(InvalidName)
    else if !EmailRegex(Text.Trim(f.email)) then Fail(InvalidEmail)
    else Pass
  }

  /** The user document `signup` saves: the name as given with its first
      letter upper-cased, the e-mail lower-cased, nothing deactivated,
      suspended or pending. */
  function NewUser(id: UserId, f: SignupForm): (u: User)
  {
    User(id, Text.CastFirstLetterToUpperCase(f.name), Text.LowerCase(f.email), f.avatar, f.hashed,
         "", false, None, false, "")
  }

  /** `signup`. `found` is the store's answer to the lookup of the
      lower-cased e-mail; an empty avatar fails the schema's required image
      when the user is saved. */
  function Signup(db: Db, f: SignupForm, found: Option<UserId>, newId: UserId): (r: Result<Db, Error>)
  {
    var checks := SignupChecks(f);
    :- checks;
    :- Need(found.None?, EmailUsed);
    :- Need(f.avatar != "", StoreRejected);
    :- Need(newId !in db.users, DuplicateKey);
    Ok(db.(users := db.users[newId := NewUser(newId, f)]))
  }

  /** A sign-up succeeds exactly when every input is given, the trimmed
      name has 3 to 20 characters and is words of letters and digits
      separated by single spaces, the trimmed password has at least 8
      characters and equals the trimmed confirmation, the trimmed e-mail
      matches the pattern, no user has the lower-cased e-mail, the avatar
      was obtained and the id is fresh. Exactly one user is added. */
  lemma SignupSpec(db: Db, f: SignupForm, found: Option<UserId>, newId: UserId)
    requires EmailAnswer(db.users, Text.LowerCase(f.email), found)
    ensures var r := Signup(db, f, found, newId);
            && (r.Ok? <==>
                  && f.name != "" && f.email != "" && f.password != "" && f.confirmPassword != ""
                  && 3 <= |Text.Trim(f.name)| <= 20
                  && |Text.Trim(f.password)| >= 8
                  && Text.Trim(f.password) == Text.Trim(f.confirmPassword)
                  && Text.NameShape(Text.Trim(f.name), false)
                  && EmailRegex(Text.Trim(f.email))
                  && (forall u :: u in db.users ==> db.users[u].email != Text.LowerCase(f.email))
                  && f.avatar != "" && newId !in db.users)
            && (r.Ok? ==>
                  && r.value.users == db.users[newId := NewUser(newId, f)]
                  && r.value == db.(users := r.value.users))
  {
    SignupShape(db, f, found, newId);
    SignupChecksMeaning(f);
  }

  /** What `signup` does once its checks are known. */
  lemma SignupShape(db: Db, f: SignupForm, found: Option<UserId>, newId: UserId)
    ensures Signup(db, f, found, newId).Ok? <==>
              SignupChecks(f).Pass? && found.None? && f.avatar != "" && newId !in db.users
    ensures Signup(db, f, found, newId).Ok? ==>
              Signup(db, f, found, newId).value == db.(users := db.users[newId := NewUser(newId, f)])
  {
  }

  /** The checks before the store pass exactly for complete inputs with a
      well-formed trimmed name, password and e-mail. */
  lemma SignupChecksMeaning(f: SignupForm)
    ensures SignupChecks(f).Pass? <==>
              && f.name != "" && f.email != "" && f.password != "" && f.confirmPassword != ""
              && 3 <= |Text.Trim(f.name)| <= 20
              && |Text.Trim(f.password)| >= 8
              && Text.Trim(f.password) == Text.Trim(f.confirmPassword)
              && Text.NameShape(Text.Trim(f.name), false)
              && EmailRegex(Text.Trim(f.email))
  {
    Text.NameRegexMeaning(Text.Trim(f.name), false);
  }

  /** The name length is checked before the password, the password before
      the match, and the match before the name pattern. */
  lemma SignupCheckOrder(db: Db, f: SignupForm, found: Option<UserId>, newId: UserId)
    requires f.name != "" && f.email != "" && f.password != "" && f.confirmPassword != ""
    ensures var r := Signup(db, f, found, newId);
            && (|Text.Trim(f.name)| < 3 || |Text.Trim(f.name)| > 20 ==> r == Err(NameLength))
            && (3 <= |Text.Trim(f.name)| <= 20 && |Text.Trim(f.password)| < 8 ==> r == Err(PasswordTooShort))
            && ((3 <= |Text.Trim(f.name)| <= 20 && |Text.Trim(f.password)| >= 8
                 && Text.Trim(f.password) != Text.Trim(f.confirmPassword)) ==> r == Err(PasswordMismatch))
  {
  }

  /** The stored user has the lower-cased e-mail, the name as typed (not
      trimmed) with its first letter upper-cased, and starts active,
      unsuspended, without a reset code or a device token. Signing up
      keeps e-mails unique. */
  lemma SignupStores(db: Db, f: SignupForm, found: Option<UserId>, newId: UserId)
    requires EmailAnswer(db.users, Text.LowerCase(f.email), found)
    requires EmailsUnique(db.users)
    ensures var r := Signup(db, f, found, newId);
            r.Ok? ==>
              var u := r.value.users[newId];
              && u.email == Text.LowerCase(f.email)
              && |u.name| == |f.name| && u.name[1..] == f.name[1..] && u.name[0] == Text.ToUpper(f.name[0])
              && !u.isDeactivate && u.deactivatedAt.None? && !u.isSuspended
              && u.otp == "" && u.fcmToken == "" && u.password == f.hashed
              && EmailsUnique(r.value.users)
  {
    var r := Signup(db, f, found, newId);
    if r.Ok? {
      SignupAdds(db, f, found, newId);
      var users' := db.users[newId := NewUser(newId, f)];
      forall a, b | a in users' && b in users' && a != b ensures users'[a].email != users'[b].email {
        if a == newId {
          assert users'[b] == db.users[b];
        } else if b == newId {
          assert users'[a] == db.users[a];
        }
      }
    }
  }

  /** A successful sign-up adds the new user and nothing else. */
  lemma SignupAdds(db: Db, f: SignupForm, found: Option<UserId>, newId: UserId)
    ensures var r := Signup(db, f, found, newId);
            r.Ok? ==> found.None? && newId !in db.users && r.value == db.(users := db.users[newId := NewUser(newId, f)])
  {
  }

  /** Surrounding white space passes the checks but is kept in the stored
      name, which then no longer matches the name pattern. */
  lemma SignupKeepsSurroundingSpaces(db: Db, found: Option<UserId>, newId: UserId)
    requires found.None? && newId !in db.users
    ensures var f := SignupForm(" bob", "a@b.co", "password", "password", "x", "h");
            && Signup(db, f, found, newId).Ok?
            && Signup(db, f, found, newId).value.users[newId].name == " bob"
            && !Text.NameShape(Signup(db, f, found, newId).value.users[newId].name, false)
  {
    var f := SignupForm(" bob", "a@b.co", "password", "password", "x", "h");
    ExampleChecksPass();
    assert Signup(db, f, found, newId) == Ok(db.(users := db.users[newId := NewUser(newId, f)]));
    assert Text.CastFirstLetterToUpperCase(" bob") == " bob";
    assert !Text.IsWordChar(" bob"[0], false);
  }

  /** The example form of `SignupKeepsSurroundingSpaces` passes every
      sign-up check; the lemmas after it evaluate its fields. */
  lemma ExampleChecksPass()
    ensures SignupChecks(SignupForm(" bob", "a@b.co", "password", "password", "x", "h")) == Pass
  {
    TrimBob();
    TrimPassword();
    ExampleName();
    ExampleEmail();
  }

  lemma ExampleName()
    ensures Text.NameRegex(Text.Trim(" bob"), false)
  {
    TrimBob();
    BobShape();
    Text.NameRegexMeaning("bob", false);
  }

  lemma BobShape()
    ensures Text.NameShape("bob", false)
  {
    assert "bob"[0] == 'b' && "bob"[1] == 'o' && "bob"[2] == 'b';
  }

  lemma TrimPassword()
    ensures Text.Trim("password") == "password"
  {
    var s := "password";
    assert !Text.IsJsWhitespace(s[0]) && !Text.IsJsWhitespace(s[|s| - 1]);
    Text.TrimFixesTrimmed(s);
  }

  lemma TrimEmail()
    ensures Text.Trim("a@b.co") == "a@b.co"
  {
    var s := "a@b.co";
    assert !Text.IsJsWhitespace(s[0]) && !Text.IsJsWhitespace(s[|s| - 1]);
    Text.TrimFixesTrimmed(s);
  }

  lemma TrimBob()
    ensures Text.Trim(" bob") == "bob"
  {
    var s := " bob";
    assert Text.IsJsWhitespace(s[0]);
    assert s[1..] == "bob";
    assert !Text.IsJsWhitespace("bob"[0]);
    assert Text.TrimStart("bob") == "bob";
    assert Text.TrimStart(s) == "bob";
    assert !Text.IsJsWhitespace("bob"[2]);
    assert Text.TrimEnd("bob") == "bob";
  }

  lemma ExampleEmail()
    ensures EmailRegex(Text.Trim("a@b.co"))
  {
    TrimEmail();
    assert Text.IndexOf("a@b.co", '@') == 1;
    assert "a@b.co"[2..] == "b.co";
    assert Text.IndexOf("b.co", '.') == 1;
    assert "b.co"[..1] == "b" && "b.co"[2..] == "co";
    assert TopLevel("co");
  }

  // ---------------------------------------------------------------------
  // login
  // ---------------------------------------------------------------------

  /** `login`. `found` answers the lookup of the lower-cased e-mail and
      `matches` whether the password matches the found user's hash. The
      answer is the logged-in user, whose id the session token carries. */
  function Login(db: Db, email: string, password: string, found: Option<UserId>, matches: bool): (r: Result<UserId, Error>)
  {
    if email == "" || password == "" then Err(InputsRequired) else
    :- Need(found.Some? && found.value in db.users && matches, InvalidCredentials);
    var u := db.users[found.value];
    :- Need(!u.isDeactivate, Deactivated);
    :- Need(!u.isSuspended, Suspended);
    Ok(found.value)
  }

  /** A login succeeds exactly for the active, unsuspended user with the
      lower-cased e-mail whose password matches. An unknown e-mail and a
      wrong password get the same answer, and a deactivated account is
      reported as such even when it is also suspended. */
  lemma LoginSpec(db: Db, email: string, password: string, found: Option<UserId>, matches: bool)
    requires EmailAnswer(db.users, Text.LowerCase(email), found)
    ensures var r := Login(db, email, password, found, matches);
            && (r.Ok? <==> email != "" && password != "" && found.Some? && matches
                           && !db.users[found.value].isDeactivate && !db.users[found.value].isSuspended)
            && (r.Ok? ==> r.value in db.users && db.users[r.value].email == Text.LowerCase(email))
            && (email != "" && password != "" && (found.None? || !matches) ==> r == Err(InvalidCredentials))
            && (email != "" && password != "" && found.Some? && matches && db.users[found.value].isDeactivate ==>
                  r == Err(Deactivated))
  {
  }

  // ---------------------------------------------------------------------
  // The password reset flow
  // ---------------------------------------------------------------------

  /** The decimal digits of `n`. */
  function Decimal(n: nat): (s: string)
    ensures |s| >= 1
    ensures forall i :: 0 <= i < |s| ==> Text.IsDigit(s[i])
  {
    if n < 10 then [('0' as int + n) as char]
    else Decimal(n / 10) + [('0' as int + n % 10) as char]
  }

  /** The reset code is `Math.floor(1000 + Math.random() * 9000)` written in
      decimal: four digits. */
  lemma {:induction false} CodeHasFourDigits(code: int)
    requires 1000 <= code <= 9999
    ensures |Decimal(code)| == 4
  {
    var a := code / 10;
    var b := a / 10;
    var c := b / 10;
    assert 1 <= c <= 9 && 10 <= b <= 99 && 100 <= a <= 999;
    assert |Decimal(c)| == 1;
    assert |Decimal(b)| == |Decimal(c)| + 1;
    assert |Decimal(a)| == |Decimal(b)| + 1;
    assert |Decimal(code)| == |Decimal(a)| + 1;
  }

  /** `forgetPassword`. `found` answers the lookup of the e-mail as typed
      and `code` is the drawn number, from 1000 to 9999; the code is
      stored as the user's reset code and mailed. The answer is the same
      whether or not the e-mail belongs to a user. */
  function ForgetPassword(db: Db, email: string, found: Option<UserId>, code: int): (r: Result<Db, Error>)
    requires 1000 <= code <= 9999
  {
    if email == "" then Err(EmailRequired) else
    :- Need(EmailRegex(Text.Trim(email)), InvalidEmail);
    if found.Some? && found.value in db.users then
      Ok(db.(users := db.users[found.value := db.users[found.value].(otp := Decimal(code))]))
    else Ok(db)
  }

  /** `verifyOtp`: the code is required before the e-mail, and the found
      user's stored code must equal the given one. */
  function VerifyOtp(db: Db, email: string, otp: string, found: Option<UserId>): (r: Result<UserId, Error>)
  {
    if otp == "" then Err(OtpRequired) else
    :- Need(email != "", VerifyFailed);
    :- Need(found.Some? && found.value in db.users && db.users[found.value].otp == otp, InvalidOtp);
    Ok(found.value)
  }

  /** The reset form: `usesOldPassword` is what comparing the new password
      with the stored hash answers, `hashed` the new hash. */
  datatype ResetForm = ResetForm(
    email: string,
    newPassword: string,
    confirmNewPassword: string,
    usesOldPassword: bool,
    hashed: string)

  /** `resetPassword`: the user is looked up by the e-mail as typed; the new
      password is stored and the reset code cleared. */
  function ResetPassword(db: Db, f: ResetForm, found: Option<UserId>): (r: Result<Db, Error>)
  {
    if found.None? || found.value !in db.users || f.email == "" then Err(ResetFailed) else
    :- Need(f.newPassword != "" && f.confirmNewPassword != "", PasswordsRequired);
    :- Need(|f.newPassword| >= MinPassword, PasswordTooShort);
    :- Need(f.newPassword == f.confirmNewPassword, PasswordMismatch);
    :- Need(!f.usesOldPassword, OldPassword);
    var id := found.value;
    Ok(db.(users := db.users[id := db.users[id].(otp := "", password := f.hashed)]))
  }

  /** A code request answers the same for known and unknown e-mails; for a
      known one the four-digit code is stored, and verifying it with that
      code then succeeds for that user. */
  lemma ForgetThenVerify(db: Db, email: string, found: Option<UserId>, code: int)
    requires 1000 <= code <= 9999
    requires EmailAnswer(db.users, email, found)
    ensures var r := ForgetPassword(db, email, found, code);
            && (r.Ok? <==> email != "" && EmailRegex(Text.Trim(email)))
            && (r.Ok? && found.None? ==> r.value == db)
            && (r.Ok? && found.Some? ==>
                  && |r.value.users[found.value].otp| == 4
                  && r.value.users == db.users[found.value := db.users[found.value].(otp := Decimal(code))]
                  && EmailAnswer(r.value.users, email, found)
                  && VerifyOtp(r.value, email, Decimal(code), found) == Ok(found.value))
  {
    CodeHasFourDigits(code);
  }

  /** Verifying succeeds exactly when a code and an e-mail are given and the
      user with that e-mail holds that code; a missing code is reported
      before a missing e-mail. A user with no pending code never verifies. */
  lemma VerifyOtpSpec(db: Db, email: string, otp: string, found: Option<UserId>)
    requires EmailAnswer(db.users, email, found)
    ensures var r := VerifyOtp(db, email, otp, found);
            && (r.Ok? <==> otp != "" && email != "" && found.Some? && db.users[found.value].otp == otp)
            && (otp == "" ==> r == Err(OtpRequired))
            && (found.Some? && db.users[found.value].otp == "" ==> r.Err?)
            && (r.Ok? ==> db.users[r.value].email == email)
  {
  }

  /** A reset succeeds exactly when the e-mail belongs to a user, both
      passwords are given, at least 8 long, equal, and not the current
      password; it sets the new hash, clears the reset code and changes
      nothing else. */
  lemma ResetPasswordSpec(db: Db, f: ResetForm, found: Option<UserId>)
    requires EmailAnswer(db.users, f.email, found)
    ensures var r := ResetPassword(db, f, found);
            && (r.Ok? <==> found.Some? && f.email != "" && f.newPassword != "" && |f.newPassword| >= 8
                           && f.newPassword == f.confirmNewPassword && !f.usesOldPassword)
            && (found.None? ==> r == Err(ResetFailed))
            && (r.Ok? ==>
                  && r.value.users == db.users[found.value := db.users[found.value].(otp := "", password := f.hashed)]
                  && r.value == db.(users := r.value.users))
  {
  }

  /** The reset never looks at the reset code: two stores that differ only
      in the user's code give the same answer, so a reset needs no code
      that was mailed or verified. */
  lemma ResetIgnoresCode(db: Db, f: ResetForm, found: Option<UserId>, otp: string)
    requires found.Some? && found.value in db.users
    ensures var db2 := db.(users := db.users[found.value := db.users[found.value].(otp := otp)]);
            && (ResetPassword(db, f, found).Ok? <==> ResetPassword(db2, f, found).Ok?)
            && (ResetPassword(db, f, found).Ok? ==> ResetPassword(db, f, found) == ResetPassword(db2, f, found))
  {
    var db2 := db.(users := db.users[found.value := db.users[found.value].(otp := otp)]);
    var id := found.value;
    assert db2.users[id := db2.users[id].(otp := "", password := f.hashed)]
        == db.users[id := db.users[id].(otp := "", password := f.hashed)];
  }

  // ---------------------------------------------------------------------
  // activateAccount
  // ---------------------------------------------------------------------

  /** `activateAccount`: the user with the given e-mail is active again and
      loses its deactivation date. `found` is the store's answer to the
      lookup; no other check is made. */
  function Activate(db: Db, found: Option<UserId>): (r: Result<Db, Error>)
  {
    if found.None? || found.value !in db.users then Err(UserNotFound) else
    var id := found.value;
    Ok(db.(users := db.users[id := db.users[id].(isDeactivate := false, deactivatedAt := None)]))
  }

  /** Activation undoes deactivation: a user who was active before
      deactivating their account is, after activating it, exactly as
      before. */
  lemma ActivateUndoesDeactivate(db: Db, caller: UserId, now: int)
    requires caller in db.users && !db.users[caller].isDeactivate && db.users[caller].deactivatedAt.None?
    ensures var d := Users.Deactivate(db, caller, now);
            && d.Ok?
            && Activate(d.value, Some(caller)) == Ok(db)
  {
    var d := Users.Deactivate(db, caller, now).value;
    assert d.users[caller := d.users[caller].(isDeactivate := false, deactivatedAt := None)] == db.users;
  }

  /** Activating succeeds exactly for a user stored with the e-mail as sent
      and changes only that user's deactivation flag and date; activating
      twice is activating once. When the e-mail was sent lower-cased, the
      same user answers the login lookup afterwards and can log in unless
      suspended. */
  lemma ActivateSpec(db: Db, email: string, found: Option<UserId>, matches: bool, password: string)
    requires EmailAnswer(db.users, email, found)
    ensures var r := Activate(db, found);
            && (r.Ok? <==> exists u :: u in db.users && db.users[u].email == email)
            && (r.Ok? ==>
                  && r.value.users == db.users[found.value := db.users[found.value].(isDeactivate := false,
                                                                                     deactivatedAt := None)]
                  && r.value == db.(users := r.value.users)
                  && Activate(r.value, found) == r
                  && (email == Text.LowerCase(email) ==>
                        && EmailAnswer(r.value.users, Text.LowerCase(email), found)
                        && (email != "" && password != "" && matches && !db.users[found.value].isSuspended ==>
                              Login(r.value, email, password, found, matches) == Ok(found.value))))
  {
    var r := Activate(db, found);
    if r.Ok? {
      var id := found.value;
      assert r.value.users[id := r.value.users[id].(isDeactivate := false, deactivatedAt := None)] == r.value.users;
    }
  }

  /** The activation lookup does not lower-case the e-mail, although sign-up
      stores it lower-cased and login lower-cases it: an e-mail sent with
      an upper-case letter finds nobody and is answered 404, even when the
      same e-mail would log in. */
  lemma ActivateIsCaseSensitive(db: Db, email: string, found: Option<UserId>)
    requires EmailAnswer(db.users, email, found)
    requires forall u :: u in db.users ==> db.users[u].email == Text.LowerCase(db.users[u].email)
    requires email != Text.LowerCase(email)
    ensures Activate(db, found) == Err(UserNotFound)
  {
  }
}
