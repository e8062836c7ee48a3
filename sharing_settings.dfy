/** The access-settings dialog of web/src/components/SharingSettings.tsx: how the e-mail
    textarea is parsed, how the PATCH body is assembled and validated in handleSave, the
    domain field's '@' stripping and the identifier in the share link. The request itself
    and the React state are not modelled. */
module SharingSettings {
  import opened Text

  const EmailSeparators: set<char> := {'\n', ','}

  const PasswordRequired := "Password is required"
  const EmailsRequired := "At least one email is required"
  const DomainRequired := "Domain is required"

  /** `appSlug || appId`: the slug when it is present and non-empty. */
  function Identifier(appSlug: Option<string>, appId: string): (r: string)
    ensures Truthy(appSlug) ==> r == appSlug.value
    ensures !Truthy(appSlug) ==> r == appId
  {
    if Truthy(appSlug) then appSlug.value else appId
  }

  /** An entry the parser keeps. */
  predicate IsEmailEntry(e: string)
  {
    IsTrimmed(e) && e != "" && '@' in e
  }

  /** `.map(e => e.trim()).filter(e => e && e.includes("@"))` */
  function KeepEmails(pieces: seq<string>): (r: seq<string>)
    ensures |r| <= |pieces|
    ensures forall k :: 0 <= k < |r| ==> IsEmailEntry(r[k])
    decreases |pieces|
  {
    if pieces == [] then []
    else
      var e := Trim(pieces[0]);
      (if e != "" && '@' in e then [e] else []) + KeepEmails(pieces[1..])
  }

  /** Filtering works piece by piece, so the kept entries keep the order of the input. */
  lemma {:induction false} KeepEmailsAppend(a: seq<string>, b: seq<string>)
    ensures KeepEmails(a + b) == KeepEmails(a) + KeepEmails(b)
    decreases |a|
  {
    if a == [] {
      assert a + b == b;
    } else {
      var e := Trim(a[0]);
      var head := if e != "" && '@' in e then [e] else [];
      assert (a + b)[0] == a[0] && (a + b)[1..] == a[1..] + b;
      assert KeepEmails(a + b) == head + KeepEmails(a[1..] + b);
      KeepEmailsAppend(a[1..], b);
      assert head + (KeepEmails(a[1..]) + KeepEmails(b)) == (head + KeepEmails(a[1..])) + KeepEmails(b);
    }
  }

  /** Pieces that are already entries are all kept, unchanged. */
  lemma {:induction false} KeepEmailEntries(xs: seq<string>)
    requires forall k :: 0 <= k < |xs| ==> IsEmailEntry(xs[k])
    ensures KeepEmails(xs) == xs
    decreases |xs|
  {
    if xs != [] {
      TrimmedIsFixed(xs[0]);
      KeepEmailEntries(xs[1..]);
    }
  }

  /** The e-mail list of the textarea: split at newlines and commas, trimmed, and only the
      non-empty entries holding an '@' kept. */
  function ParseEmails(text: string): (r: seq<string>)
    ensures forall k :: 0 <= k < |r| ==> IsEmailEntry(r[k]) && NoneIn(r[k], EmailSeparators)
  {
    var pieces := Split(text, EmailSeparators);
    var r := KeepEmails(pieces);
    assert forall k :: 0 <= k < |r| ==> NoneIn(r[k], EmailSeparators) by {
      KeptAreFree(pieces);
    }
    r
  }

  lemma {:induction false} KeptAreFree(pieces: seq<string>)
    requires forall k :: 0 <= k < |pieces| ==> NoneIn(pieces[k], EmailSeparators)
    ensures forall k :: 0 <= k < |KeepEmails(pieces)| ==> NoneIn(KeepEmails(pieces)[k], EmailSeparators)
    decreases |pieces|
  {
    if pieces != [] {
      TrimKeepsNone(pieces[0], EmailSeparators);
      KeptAreFree(pieces[1..]);
    }
  }

  /** The textarea's initial text: `access_emails?.join("\n") || ""`. */
  function InitialEmails(emails: Option<seq<string>>): string
  {
    if emails.Some? then Join(emails.value, "\n") else ""
  }

  /** Opening the dialog and saving without edits keeps the list: parsing the initial text gives
      the stored list back whenever every entry is trimmed, non-empty, holds an '@' and has no
      comma or newline. */
  lemma EmailsRoundTrip(emails: seq<string>)
    requires forall k :: 0 <= k < |emails| ==> IsEmailEntry(emails[k]) && NoneIn(emails[k], EmailSeparators)
    ensures ParseEmails(InitialEmails(Some(emails))) == emails
  {
    if emails == [] {
      assert Split("", EmailSeparators) == [""];
      assert Trim("") == "";
    } else {
      assert "\n" == ['\n'] + "";
      SplitJoin(emails, '\n', "", EmailSeparators);
      var pieces := Split(Join(emails, "\n"), EmailSeparators);
      assert pieces == emails by {
        forall k | 1 <= k < |emails| ensures pieces[k] == emails[k] {
          assert "" + emails[k] == emails[k];
        }
      }
      KeepEmailEntries(emails);
    }
  }

  /** What the PATCH body carries. */
  datatype Updates = Updates(
    accessType: string,
    accessPassword: Option<string>,
    accessEmails: Option<seq<string>>,
    accessDomain: Option<string>)

  /** handleSave either sends the updates or stops with a message before any request. */
  datatype SaveOutcome = Send(updates: Updates) | Refused(message: string)

  /** The refusal handleSave raises for these inputs, if any. */
  function Refusal(accessType: string, password: string, emails: string, domain: string): Option<string>
  {
    if accessType == "password" && password == "" then Some(PasswordRequired)
    else if accessType == "email_list" && ParseEmails(emails) == [] then Some(EmailsRequired)
    else if accessType == "domain" && domain == "" then Some(DomainRequired)
    else None
  }

  /** handleSave's assembly of `updates`. */
  method HandleSave(accessType: string, password: string, emails: string, domain: string) returns (r: SaveOutcome)
    ensures r.Refused? <==> Refusal(accessType, password, emails, domain).Some?
    ensures r.Refused? ==> r.message == Refusal(accessType, password, emails, domain).value
    ensures r.Send? ==>
      && r.updates.accessType == accessType
      && (r.updates.accessPassword.Some? <==> accessType == "password")
      && (r.updates.accessEmails.Some? <==> accessType == "email_list")
      && (r.updates.accessDomain.Some? <==> accessType == "domain")
      && (r.updates.accessPassword.Some? ==> r.updates.accessPassword.value == password != "")
      && (r.updates.accessEmails.Some? ==> r.updates.accessEmails.value == ParseEmails(emails) != [])
      && (r.updates.accessDomain.Some? ==> r.updates.accessDomain.value == domain != "")
  {
    var updates := Updates(accessType, None, None, None);
    if accessType == "password" {
      if password == "" {
        return Refused(PasswordRequired);
      }
      updates := updates.(accessPassword := Some(password));
    }
    if accessType == "email_list" {
      var emailList := ParseEmails(emails);
      if |emailList| == 0 {
        return Refused(EmailsRequired);
      }
      updates := updates.(accessEmails := Some(emailList));
    }
    if accessType == "domain" {
      if domain == "" {
        return Refused(DomainRequired);
      }
      updates := updates.(accessDomain := Some(domain));
    }
    r := Send(updates);
  }

  /** Public and private settings send the access type alone and are never refused. */
  lemma OpenAndClosedNeedNothing(accessType: string, password: string, emails: string, domain: string)
    requires accessType == "public" || accessType == "private"
    ensures Refusal(accessType, password, emails, domain).None?
  {
  }

  /** The domain field: `value.replace("@", "")` drops the first '@' only. */
  function DomainInput(value: string): string
  {
    ReplaceFirst(value, "@", "")
  }

  /** One '@' fewer after each keystroke that brings one: a pasted "@@acme.com" keeps one. */
  lemma DomainInputDropsOneAt(value: string)
    ensures '@' in value ==> Count(DomainInput(value), '@') == Count(value, '@') - 1
    ensures '@' !in value ==> DomainInput(value) == value
  {
    assert "@" == ['@'];
    ReplaceFirstCharRemovesOne(value, '@');
  }
}
