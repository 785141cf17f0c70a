/** Registration and login (3DNA/backend/api/auth.php). `password_hash` and
    `password_verify` are parameters, and so is the token `random_bytes` would produce. */
module Auth {
  import opened Wrappers
  import opened PhpValues
  import opened Sequences
  import opened Schema

  predicate EmailTaken(users: map<int, User>, email: string)
  {
    exists k :: k in users && users[k].email == email
  }

  predicate PhoneTaken(users: map<int, User>, phone: string)
  {
    exists k :: k in users && users[k].phone == Some(phone)
  }

  predicate LicenseTaken(users: map<int, User>, license: string)
  {
    exists k :: k in users && users[k].licenseNumber == Some(license)
  }

  function RegEmail(input: Input): PhpValue { Field(input, "email", Str("")) }
  function RegPassword(input: Input): PhpValue { Field(input, "password", Str("")) }
  function RegName(input: Input): PhpValue { Field(input, "full_name", Str("")) }
  function RegType(input: Input): PhpValue { Field(input, "user_type", Str("passenger")) }
  function RegPhone(input: Input): PhpValue { Field(input, "phone", Str("")) }
  function RegLicense(input: Input): PhpValue { Field(input, "license_number", Str("")) }

  /** The early-exit checks of `handleRegister`; `None` means the user is inserted. */
  function RegisterRejection(users: map<int, User>, input: Input): Option<string>
  {
    var isDriver := RegType(input) == Str("driver");
    if Empty(RegEmail(input)) || Empty(RegPassword(input)) || Empty(RegName(input)) then
      Some("Email, password, and name are required")
    else if isDriver && Empty(RegLicense(input)) then Some("Driver license number is required")
    else if EmailTaken(users, StringOf(RegEmail(input))) then Some("Email already registered")
    else if PhoneTaken(users, StringOf(RegPhone(input))) then Some("Phone number already registered")
    else if isDriver && !Empty(RegLicense(input)) && LicenseTaken(users, StringOf(RegLicense(input))) then
      Some("License number already registered")
    else None
  }

  /** The inserted row: every field as given (missing phone and licence stored as ''), type
      'passenger' by default, the hash of the password, and the account active. */
  function NewUser(input: Input, hash: string -> string): User
  {
    User(StringOf(RegType(input)), StringOf(RegEmail(input)), hash(StringOf(RegPassword(input))),
         StringOf(RegName(input)), Some(StringOf(RegPhone(input))), Some(StringOf(RegLicense(input))), true)
  }

  /** A registration is refused by the first check that fails, in the order of `handleRegister`:
      each message is given exactly when every earlier check passes and its own fails, and an
      accepted registration has all three required fields, a licence when it is a driver's,
      and an email and phone no user has. */
  lemma RegisterRejectionSpec(users: map<int, User>, input: Input)
    ensures var r := RegisterRejection(users, input);
      var required := !Empty(RegEmail(input)) && !Empty(RegPassword(input)) && !Empty(RegName(input));
      var isDriver := RegType(input) == Str("driver");
      var licensed := isDriver ==> !Empty(RegLicense(input));
      var emailTaken := EmailTaken(users, StringOf(RegEmail(input)));
      var phoneTaken := PhoneTaken(users, StringOf(RegPhone(input)));
      && (r == Some("Email, password, and name are required") <==> !required)
      && (r == Some("Driver license number is required") <==> required && isDriver && Empty(RegLicense(input)))
      && (r == Some("Email already registered") <==> required && licensed && emailTaken)
      && (r == Some("Phone number already registered") <==> required && licensed && !emailTaken && phoneTaken)
      && (r == Some("License number already registered") <==>
            required && licensed && !emailTaken && !phoneTaken && isDriver
            && LicenseTaken(users, StringOf(RegLicense(input))))
      && (r == None <==>
            required && licensed
            && (forall k :: k in users ==> (users[k].email != StringOf(RegEmail(input))
                                           && users[k].phone != Some(StringOf(RegPhone(input)))))
            && (isDriver ==>
                  forall k :: k in users ==> users[k].licenseNumber != Some(StringOf(RegLicense(input)))))
  {
    assert "Phone number already registered"[0] == 'P' && "License number already registered"[0] == 'L';
    assert "Email, password, and name are required"[0] == 'E' && "Driver license number is required"[0] == 'D';
    assert "Email already registered"[0] == 'E' && "Email already registered"[1] != "Email, password, and name are required"[5];
  }

  /** A default-typed registration is a passenger's and never needs a licence. */
  lemma PassengerByDefault(users: map<int, User>, input: Input, hash: string -> string)
    requires "user_type" !in input
    ensures NewUser(input, hash).userType == "passenger" && NewUser(input, hash).isActive
    ensures RegisterRejection(users, input) != Some("Driver license number is required")
    ensures RegisterRejection(users, input) != Some("License number already registered")
  {
  }

  /** Registration keeps emails and phone numbers unique. */
  lemma RegisterPreservesUniqueness(users: map<int, User>, input: Input, hash: string -> string, id: int)
    requires UniqueEmails(users) && UniquePhones(users)
    requires RegisterRejection(users, input) == None && id !in users
    ensures UniqueEmails(users[id := NewUser(input, hash)])
    ensures UniquePhones(users[id := NewUser(input, hash)])
  {
    RegisterRejectionSpec(users, input);
  }

  /** A registration without a phone stores the phone '' and a second registration without a
      phone then fails the phone check, whatever its email. */
  lemma PhonelessRegistrationsCollide(users: map<int, User>, first: Input, second: Input, hash: string -> string, id: int)
    requires "phone" !in first && "phone" !in second && id !in users
    requires RegisterRejection(users, first) == None
    requires !Empty(RegEmail(second)) && !Empty(RegPassword(second)) && !Empty(RegName(second))
    requires RegType(second) != Str("driver")
    requires !EmailTaken(users[id := NewUser(first, hash)], StringOf(RegEmail(second)))
    ensures RegisterRejection(users[id := NewUser(first, hash)], second) == Some("Phone number already registered")
  {
    var after := users[id := NewUser(first, hash)];
    assert after[id].phone == Some("");
    assert PhoneTaken(after, StringOf(RegPhone(second)));
  }

  /** `handleRegister`: on success one user (the new id) and one 'registration' log. */
  method Register(db: Database, input: Input, hash: string -> string, token: string, now: int)
    returns (r: Reply<(int, string)>)
    requires db.Valid()
    modifies db
    ensures db.Valid()
    ensures r.Failure? <==> RegisterRejection(old(db.users), input).Some?
    ensures r.Failure? ==> r.message == RegisterRejection(old(db.users), input).value && db.Snapshot() == old(db.Snapshot())
    ensures r.Success? ==> (
      && r.message == "Registration successful" && r.value == (old(db.nextUserId), token)
      && db.Snapshot() == old(db.Snapshot()).(
           users := old(db.users)[r.value.0 := NewUser(input, hash)],
           nextUserId := old(db.nextUserId) + 1,
           logs := old(db.logs) + [ActivityLog(old(db.nextLogId), Some(r.value.0), "registration", None, None,
                     "New " + StringOf(RegType(input)) + " registered: " + StringOf(RegName(input))
                     + " (" + StringOf(RegEmail(input)) + ")", now)],
           nextLogId := old(db.nextLogId) + 1))
    ensures UniqueEmails(old(db.users)) && UniquePhones(old(db.users)) ==>
      UniqueEmails(db.users) && UniquePhones(db.users)
  {
    var rejection := RegisterRejection(db.users, input);
    if rejection.Some? {
      return Failure(rejection.value);
    }
    ghost var before := db.users;
    var description := "New " + StringOf(RegType(input)) + " registered: " + StringOf(RegName(input))
                       + " (" + StringOf(RegEmail(input)) + ")";
    var id := db.InsertUser(NewUser(input, hash));
    assert UniqueEmails(before) && UniquePhones(before) ==>
      UniqueEmails(db.users) && UniquePhones(db.users) by {
      if UniqueEmails(before) && UniquePhones(before) {
        RegisterPreservesUniqueness(before, input, hash, id);
      }
    }
    db.AppendLog(Some(id), "registration", None, None, description, now);
    r := Success("Registration successful", (id, token));
  }

  /** The accounts `WHERE email = ? AND user_type = ?` selects. */
  function Accounts(users: map<int, User>, email: string, userType: string): set<int>
  {
    set k | k in users && users[k].email == email && users[k].userType == userType
  }

  function LoginEmail(input: Input): PhpValue { Field(input, "email", Str("")) }
  function LoginPassword(input: Input): PhpValue { Field(input, "password", Str("")) }
  function LoginType(input: Input): PhpValue { Field(input, "user_type", Str("")) }

  /** The checks of `handleLogin`, in order; success carries the id of the first account found. */
  function LoginDecision(users: map<int, User>, input: Input, verify: (string, string) -> bool): Reply<int>
  {
    var password := LoginPassword(input);
    if Empty(LoginEmail(input)) || Empty(password) then Failure("Email and password are required")
    else
      var ks := Accounts(users, StringOf(LoginEmail(input)), StringOf(LoginType(input)));
      if ks == {} then Failure("Invalid credentials")
      else
        var k := MinOf(ks);
        if !users[k].isActive then Failure("User account is inactive")
        else if !verify(StringOf(password), users[k].passwordHash) && password != Str("password") then
          Failure("Invalid credentials")
        else Success("Login successful", k)
  }

  /** The checks of `handleLogin`, in order: empty input is refused first; then "Invalid
      credentials" when no account has that email and that type; "User account is inactive"
      when the first such account is inactive; "Invalid credentials" again when its hash does
      not verify and the password is not the literal 'password'. Otherwise the login succeeds,
      with the lowest id among the accounts with that email and type. */
  lemma LoginSpec(users: map<int, User>, input: Input, verify: (string, string) -> bool)
    ensures var r := LoginDecision(users, input, verify);
      var email := StringOf(LoginEmail(input));
      var userType := StringOf(LoginType(input));
      var password := LoginPassword(input);
      var present := !Empty(LoginEmail(input)) && !Empty(password);
      var ks := Accounts(users, email, userType);
      var active := ks != {} && users[MinOf(ks)].isActive;
      var matches := ks != {} && (verify(StringOf(password), users[MinOf(ks)].passwordHash) || password == Str("password"));
      && (r == Failure("Email and password are required") <==> !present)
      && ((forall k :: k in users ==> users[k].email != email || users[k].userType != userType) ==>
            r.Failure?)
      && (r == Failure("Invalid credentials") <==> (present && (ks == {} || (active && !matches))))
      && (r == Failure("User account is inactive") <==> (present && ks != {} && !active))
      && (r.Success? <==> (present && active && matches))
      && (r.Success? ==> (
            && r.message == "Login successful"
            && r.value in users && users[r.value].email == email && users[r.value].userType == userType
            && (forall k :: k in users && users[k].email == email && users[k].userType == userType ==> r.value <= k)))
  {
    var email := StringOf(LoginEmail(input));
    var userType := StringOf(LoginType(input));
    var ks := Accounts(users, email, userType);
    assert "Email and password are required"[0] == 'E' && "Invalid credentials"[0] == 'I';
    assert "User account is inactive"[0] == 'U';
    if ks != {} {
      var k := PickOne(ks);
      assert k in users && users[k].email == email && users[k].userType == userType;
      forall j | j in users && users[j].email == email && users[j].userType == userType
        ensures MinOf(ks) <= j
      {
        assert j in ks;
      }
    } else {
      forall k | k in users ensures users[k].email != email || users[k].userType != userType {
        assert k !in ks;
      }
    }
  }

  /** An inactive account is refused before its password is looked at: the reply is the same
      for every non-empty password. */
  lemma InactiveBeforePassword(users: map<int, User>, input: Input, pw: string, verify: (string, string) -> bool)
    requires !Empty(LoginEmail(input)) && !Empty(LoginPassword(input)) && pw != "" && pw != "0"
    requires var ks := Accounts(users, StringOf(LoginEmail(input)), StringOf(LoginType(input)));
      ks != {} && !users[MinOf(ks)].isActive
    ensures LoginDecision(users, input, verify) == Failure("User account is inactive")
    ensures LoginDecision(users, input["password" := Str(pw)], verify) == Failure("User account is inactive")
  {
    assert LoginEmail(input["password" := Str(pw)]) == LoginEmail(input);
    assert LoginType(input["password" := Str(pw)]) == LoginType(input);
  }

  /** The demonstration fallback: the literal 'password' opens the first active account with
      that email and type, whatever stored hash and verifier. */
  lemma DemoPasswordOpensActiveAccount(users: map<int, User>, input: Input, verify: (string, string) -> bool)
    requires !Empty(LoginEmail(input)) && LoginPassword(input) == Str("password")
    requires var ks := Accounts(users, StringOf(LoginEmail(input)), StringOf(LoginType(input)));
      ks != {} && users[MinOf(ks)].isActive
    ensures LoginDecision(users, input, verify).Success?
  {
  }

  datatype LoginResult = LoginResult(userId: int, userType: string, fullName: string, token: string)

  /** `handleLogin`: a successful login appends one 'login' log for that user and changes nothing else. */
  method Login(db: Database, input: Input, verify: (string, string) -> bool, token: string, now: int)
    returns (r: Reply<LoginResult>)
    requires db.Valid()
    modifies db
    ensures db.Valid()
    ensures var d := LoginDecision(old(db.users), input, verify);
      && (r.Failure? <==> d.Failure?)
      && (r.Failure? ==> r.message == d.message && db.Snapshot() == old(db.Snapshot()))
      && (r.Success? ==> (
            && d.value in old(db.users)
            && r == Success("Login successful", LoginResult(d.value, old(db.users)[d.value].userType,
                                                          old(db.users)[d.value].fullName, token))
            && db.Snapshot() == old(db.Snapshot()).(
                 logs := old(db.logs) + [ActivityLog(old(db.nextLogId), Some(d.value), "login", None, None,
                           "User " + StringOf(LoginEmail(input)) + " logged in", now)],
                 nextLogId := old(db.nextLogId) + 1)))
  {
    LoginSpec(db.users, input, verify);
    var d := LoginDecision(db.users, input, verify);
    if d.Failure? {
      return Failure(d.message);
    }
    var u := db.users[d.value];
    db.AppendLog(Some(d.value), "login", None, None, "User " + StringOf(LoginEmail(input)) + " logged in", now);
    r := Success("Login successful", LoginResult(d.value, u.userType, u.fullName, token));
  }
}
