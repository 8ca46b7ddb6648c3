// The sign-up form of usuarios/forms.py: its validation (matching
// passwords, no live organization of the same name, ignoring case) and its
// save, which creates the organization and the user linked to it.
module Signup {
  import opened CoreModels

  /** What the form holds after field cleaning; a required field that was
      left empty is absent. */
  datatype SignupData = SignupData(
    username: string,
    email: string,
    organizationName: Option<string>,
    password1: Option<string>,
    password2: Option<string>)

  datatype SignupError = PasswordMismatch | DuplicateOrganization

  datatype User = User(username: string, email: string, organization: Option<nat>)

  /** `name__iexact`, with the ASCII case folding of the normalizer. */
  predicate EqualsIgnoringCase(a: string, b: string)
  {
    LowerStr(a) == LowerStr(b)
  }

  /** A non-empty optional text. */
  predicate Given(s: Option<string>)
  {
    s.Some? && s.value != ""
  }

  /** A live organization whose name equals `name` ignoring case. */
  predicate LiveNameTaken(orgs: map<nat, Record<Organization>>, name: string)
  {
    exists k :: k in orgs && IsAlive(orgs[k]) && EqualsIgnoringCase(orgs[k].data.name, name)
  }

  /** `SignupForm.clean`: the errors it adds. */
  function Clean(d: SignupData, orgs: map<nat, Record<Organization>>): (errors: set<SignupError>)
    ensures PasswordMismatch in errors <==> Given(d.password1) && Given(d.password2) && d.password1 != d.password2
    ensures DuplicateOrganization in errors <==> Given(d.organizationName) && LiveNameTaken(orgs, d.organizationName.value)
    ensures errors <= {PasswordMismatch, DuplicateOrganization}
  {
    (if Given(d.password1) && Given(d.password2) && d.password1 != d.password2 then {PasswordMismatch} else {})
    + (if Given(d.organizationName) && LiveNameTaken(orgs, d.organizationName.value) then {DuplicateOrganization} else {})
  }

  /** Deleted organizations play no part in the validation. */
  lemma DeletedOrganizationsIgnored(d: SignupData, orgs: map<nat, Record<Organization>>)
    ensures Clean(d, orgs) == Clean(d, Alive(orgs))
  {
    if Given(d.organizationName) {
      var name := d.organizationName.value;
      if LiveNameTaken(orgs, name) {
        var k :| k in orgs && IsAlive(orgs[k]) && EqualsIgnoringCase(orgs[k].data.name, name);
        assert k in Alive(orgs);
      }
    }
  }

  lemma LowerStrIdempotent(s: string)
    ensures LowerStr(LowerStr(s)) == LowerStr(s)
  {
    assert forall i :: 0 <= i < |s| ==> Lower(Lower(s[i])) == Lower(s[i]);
  }

  /** Only the letters matter, not their case: a name and its lower-case
      spelling are refused alike. */
  lemma CleanIgnoresCase(d: SignupData, orgs: map<nat, Record<Organization>>, name: string)
    ensures Clean(d.(organizationName := Some(name)), orgs) == Clean(d.(organizationName := Some(LowerStr(name))), orgs)
  {
    LowerStrIdempotent(name);
    assert forall a :: EqualsIgnoringCase(a, name) <==> EqualsIgnoringCase(a, LowerStr(name));
    assert LiveNameTaken(orgs, name) <==> LiveNameTaken(orgs, LowerStr(name));
  }

  /** The username the account gets: the given one, the email when it is empty. */
  function UsernameFor(d: SignupData): (u: string)
    ensures d.username != "" ==> u == d.username
    ensures d.username == "" ==> u == d.email
  {
    if d.username == "" then d.email else d.username
  }

  /** Some row, deleted or not, with exactly this organization name. */
  predicate OrganizationNameUsed(orgs: map<nat, Record<Organization>>, name: string)
  {
    exists k :: k in orgs && orgs[k].data.name == name
  }

  predicate UsernameUsed(users: map<nat, Record<User>>, username: string)
  {
    exists k :: k in users && users[k].data.username == username
  }

  datatype SignupResult = SignedUp(organization: nat, user: Option<nat>) | NameRefused | UsernameRefused

  /** `SignupForm.save`, one transaction: the organization is created under
      the cleaned name, then the user with the fallback username, the email
      and the new organization is saved when `commit` is set. A refused
      insert rolls both tables back. */
  method Save(orgs: Table<Organization>, users: Table<User>, d: SignupData, commit: bool, now: Time)
    returns (result: SignupResult)
    requires orgs.Valid() && users.Valid()
    requires d.organizationName.Some?
    modifies orgs, users
    ensures orgs.Valid() && users.Valid()
    ensures result == NameRefused <==> OrganizationNameUsed(old(orgs.rows), d.organizationName.value)
    ensures result == UsernameRefused <==>
              !OrganizationNameUsed(old(orgs.rows), d.organizationName.value) && commit && UsernameUsed(old(users.rows), UsernameFor(d))
    ensures !result.SignedUp? ==> orgs.rows == old(orgs.rows) && users.rows == old(users.rows)
    ensures result.SignedUp? ==>
              result.organization !in old(orgs.rows)
              && orgs.rows == old(orgs.rows)[result.organization := Record(NewMeta(now), Organization(d.organizationName.value, None))]
    ensures result.SignedUp? && !commit ==> result.user.None? && users.rows == old(users.rows)
    ensures result.SignedUp? && commit ==>
              result.user.Some? && result.user.value !in old(users.rows)
              && users.rows == old(users.rows)[result.user.value :=
                                                 Record(NewMeta(now), User(UsernameFor(d), d.email, Some(result.organization)))]
  {
    var name := d.organizationName.value;
    if OrganizationNameUsed(orgs.rows, name) {
      return NameRefused;
    }
    var saved := orgs.rows;
    var org := orgs.Create(Organization(name, None), now);
    if !commit {
      return SignedUp(org, None);
    }
    var username := UsernameFor(d);
    if UsernameUsed(users.rows, username) {
      orgs.rows := saved;
      return UsernameRefused;
    }
    var user := users.Create(User(username, d.email, Some(org)), now);
    result := SignedUp(org, Some(user));
  }

  /** The check of `clean` and the constraint of the table disagree: the
      exact name of a deleted organization passes validation, and the save
      that follows is refused. */
  lemma DeletedNamePassesCleanButNotSave(d: SignupData, orgs: map<nat, Record<Organization>>, k: nat)
    requires Given(d.organizationName)
    requires k in orgs && !IsAlive(orgs[k]) && orgs[k].data.name == d.organizationName.value
    requires forall j :: j in orgs && IsAlive(orgs[j]) ==> !EqualsIgnoringCase(orgs[j].data.name, d.organizationName.value)
    ensures DuplicateOrganization !in Clean(d, orgs)
    ensures OrganizationNameUsed(orgs, d.organizationName.value)
  {
  }
}
