/** canAccessApp from web/src/lib/supabase.ts: the access decision for one app and an
    optional requester email. The switch compares `access_type` as an exact string,
    the e-mail list by exact (case-sensitive) membership and the domain by exact
    equality with the segment after the first '@'. */
module AccessPolicy {
  import opened Text

  const ReasonPrivate := "This app is private"
  const ReasonPasswordRequired := "password_required"
  const ReasonEmailRequired := "email_required"
  const ReasonNotOnList := "Your email is not on the access list"
  const ReasonUnknownType := "Unknown access type"

  /** The fields of an app row that the decision reads. `ownerEmail` is `app.owner?.email`. */
  datatype AppAccess = AppAccess(
    ownerEmail: Option<string>,
    accessType: string,
    accessEmails: Option<seq<string>>,
    accessDomain: Option<string>)

  /** `{ allowed, reason? }` */
  datatype Verdict = Verdict(allowed: bool, reason: Option<string>)

  /** `email.split('@')[1]`: the text between the first and the second '@', or undefined. */
  function DomainOf(email: string): Option<string>
  {
    var parts := Split(email, {'@'});
    if |parts| > 1 then Some(parts[1]) else None
  }

  function DomainReason(accessDomain: Option<string>): string
  {
    "Only @" + Render(accessDomain) + " emails can access this app"
  }

  predicate IsOwner(app: AppAccess, userEmail: Option<string>)
  {
    Truthy(userEmail) && app.ownerEmail == userEmail
  }

  /** The decision. Its contract is the decision table of the source, row by row. */
  function CanAccessApp(app: AppAccess, userEmail: Option<string>): (v: Verdict)
    // an allowed verdict carries no reason, a denial always carries one
    ensures v.allowed <==> v.reason.None?
    // the owner check precedes the switch
    ensures IsOwner(app, userEmail) ==> v.allowed
    ensures !IsOwner(app, userEmail) ==>
      && (app.accessType == "public" ==> v.allowed)
      && (app.accessType == "private" ==> v == Verdict(false, Some(ReasonPrivate)))
      && (app.accessType == "password" ==> v == Verdict(false, Some(ReasonPasswordRequired)))
      && (app.accessType in {"email_list", "domain"} && !Truthy(userEmail) ==>
            v == Verdict(false, Some(ReasonEmailRequired)))
      && (app.accessType == "email_list" && Truthy(userEmail) ==>
            (v.allowed <==> app.accessEmails.Some? && userEmail.value in app.accessEmails.value)
            && (!v.allowed ==> v.reason == Some(ReasonNotOnList)))
      && (app.accessType == "domain" && Truthy(userEmail) ==>
            (v.allowed <==> DomainOf(userEmail.value) == app.accessDomain)
            && (!v.allowed ==> v.reason == Some(DomainReason(app.accessDomain))))
      && (app.accessType !in {"public", "private", "password", "email_list", "domain"} ==>
            v == Verdict(false, Some(ReasonUnknownType)))
  {
    if IsOwner(app, userEmail) then Verdict(true, None)
    else match app.accessType
      case "public" => Verdict(true, None)
      case "private" => Verdict(false, Some(ReasonPrivate))
      case "password" => Verdict(false, Some(ReasonPasswordRequired))
      case "email_list" =>
        if !Truthy(userEmail) then Verdict(false, Some(ReasonEmailRequired))
        else if app.accessEmails.Some? && userEmail.value in app.accessEmails.value then Verdict(true, None)
        else Verdict(false, Some(ReasonNotOnList))
      case "domain" =>
        if !Truthy(userEmail) then Verdict(false, Some(ReasonEmailRequired))
        else if DomainOf(userEmail.value) == app.accessDomain then Verdict(true, None)
        else Verdict(false, Some(DomainReason(app.accessDomain)))
      case _ => Verdict(false, Some(ReasonUnknownType))
  }

  /** The domain is undefined exactly when the address has no '@'. */
  lemma {:induction false} DomainDefinedIffAt(email: string)
    ensures DomainOf(email).Some? <==> '@' in email
  {
    SplitLength(email, {'@'});
    if '@' in email {
      var k :| 0 <= k < |email| && email[k] == '@';
      assert email[k] in {'@'};
    }
  }

  /** For `local@rest` with no '@' in `local`, the domain is the part of `rest` before its own
      first '@' — the whole of `rest` when it has none. */
  lemma DomainOfAddress(local: string, rest: string)
    requires '@' !in local
    ensures DomainOf(local + "@" + rest) == Some(Split(rest, {'@'})[0])
    ensures '@' !in rest ==> DomainOf(local + "@" + rest) == Some(rest)
  {
    assert NoneIn(local, {'@'});
    SplitAtSeparator(local, '@', rest, {'@'});
    if '@' !in rest {
      SplitWithoutSeparator(rest, {'@'});
    }
  }

  /** The documented edge case: an address without '@' on a domain app whose domain is unset
      compares undefined with undefined and is let in. */
  lemma NoAtMatchesUnsetDomain(app: AppAccess, email: string)
    requires app.accessType == "domain" && app.accessDomain.None?
    requires email != "" && '@' !in email
    ensures CanAccessApp(app, Some(email)).allowed
  {
    DomainDefinedIffAt(email);
  }

  /** On a domain app, someone who is not the owner and gives `local@domain` with a single '@'
      is let in exactly when `domain` equals the app's domain, character for character. */
  lemma DomainMatchIsExact(app: AppAccess, local: string, domain: string)
    requires app.accessType == "domain" && app.accessDomain.Some?
    requires app.ownerEmail != Some(local + "@" + domain)
    requires '@' !in local && '@' !in domain
    ensures CanAccessApp(app, Some(local + "@" + domain)).allowed <==> domain == app.accessDomain.value
  {
    DomainOfAddress(local, domain);
  }

  /** Hence `bob@Acme.com` is turned away from an `acme.com` app that `bob@acme.com` may open. */
  lemma DomainIsCaseSensitive()
    ensures !CanAccessApp(AppAccess(None, "domain", None, Some("acme.com")), Some("bob" + "@" + "Acme.com")).allowed
    ensures CanAccessApp(AppAccess(None, "domain", None, Some("acme.com")), Some("bob" + "@" + "acme.com")).allowed
  {
    var app := AppAccess(None, "domain", None, Some("acme.com"));
    assert '@' !in "bob" && '@' !in "Acme.com" && '@' !in "acme.com";
    DomainMatchIsExact(app, "bob", "Acme.com");
    DomainMatchIsExact(app, "bob", "acme.com");
    assert "Acme.com"[0] != "acme.com"[0];
  }

  /** List matching is exact: `B@X.com` is not on the list `["a@x.com", "b@x.com"]`. */
  lemma EmailListIsCaseSensitive()
    ensures var app := AppAccess(None, "email_list", Some(["a@x.com", "b@x.com"]), None);
      && !CanAccessApp(app, Some("B@X.com")).allowed
      && CanAccessApp(app, Some("b@x.com")).allowed
  {
  }

  /** An empty requester email counts as no email at all: it is never the owner and the
      e-mail and domain gates ask for an address. */
  lemma EmptyEmailIsNoEmail(app: AppAccess)
    ensures CanAccessApp(app, Some("")) == CanAccessApp(app, None)
  {
  }
}
