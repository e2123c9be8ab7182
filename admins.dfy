/**
  The admin check (`IsAdmin`, utils.go): the configured admin list, passed
  here as a sequence of requirements, is searched in order for a
  requirement that the sender's issuer (the nick, or the ident when the
  nick is empty), host or `ident@host` satisfies.
*/
module Admins {
  import opened Matching

  /** One admin requirement accepts the sender by issuer, by host or by full issuer, tried in that order. */
  predicate AcceptsSender(rx: Regexp, admin: string, issuer: string, fullIssuer: string, host: string) {
    Matches(rx, admin, issuer) || Matches(rx, admin, host) || Matches(rx, admin, fullIssuer)
  }

  /** Some requirement of the list accepts the sender. */
  predicate SomeAdminAccepts(rx: Regexp, admins: seq<string>, issuer: string, fullIssuer: string, host: string) {
    exists i :: 0 <= i < |admins| && AcceptsSender(rx, admins[i], issuer, fullIssuer, host)
  }

  /**
    `IsAdmin(issuer, fullIssuer, host)`: true exactly when some admin
    requirement accepts the sender. The loop stops at the first requirement
    that does; `examined` counts the requirements it looked at, so when the
    result is true the last one examined is the first accepting one, and
    when it is false every requirement was examined.
  */
  method IsAdmin(rx: Regexp, admins: seq<string>, issuer: string, fullIssuer: string, host: string)
    returns (userIsAdmin: bool, ghost examined: nat)
    ensures userIsAdmin <==> SomeAdminAccepts(rx, admins, issuer, fullIssuer, host)
    ensures |admins| == 0 ==> !userIsAdmin
    ensures examined <= |admins|
    ensures userIsAdmin ==> 0 < examined && AcceptsSender(rx, admins[examined - 1], issuer, fullIssuer, host)
    ensures !userIsAdmin ==> examined == |admins|
    ensures forall j :: 0 <= j < examined - 1 ==> !AcceptsSender(rx, admins[j], issuer, fullIssuer, host)
  {
    userIsAdmin := false;
    examined := 0;
    var i := 0;
    while i < |admins|
      invariant 0 <= i <= |admins| && examined == i
      invariant !userIsAdmin
      invariant forall j :: 0 <= j < i ==> !AcceptsSender(rx, admins[j], issuer, fullIssuer, host)
    {
      var admin := admins[i];
      examined := examined + 1;
      userIsAdmin := Matches(rx, admin, issuer);
      if !userIsAdmin {
        userIsAdmin := Matches(rx, admin, host);
      }
      if !userIsAdmin {
        userIsAdmin := Matches(rx, admin, fullIssuer);
      }
      if userIsAdmin {
        break;
      }
      i := i + 1;
    }
  }

  /** An admin requirement that accepts only the host is still enough. */
  lemma HostAloneSuffices(rx: Regexp, admins: seq<string>, k: nat, issuer: string, fullIssuer: string, host: string)
    requires k < |admins|
    requires !Matches(rx, admins[k], issuer) && !Matches(rx, admins[k], fullIssuer)
    requires Matches(rx, admins[k], host)
    ensures SomeAdminAccepts(rx, admins, issuer, fullIssuer, host)
  {
    assert AcceptsSender(rx, admins[k], issuer, fullIssuer, host);
  }

  /**
    Example: with a single requirement `re:^b.b$` that the engine
    matches against `bob`, the sender with issuer `bob` is an admin.
  */
  lemma RegexNickExample(rx: Regexp)
    requires rx.compiles("^b.b$") && rx.matchString("^b.b$", "bob")
    ensures SomeAdminAccepts(rx, ["re:^b.b$"], "bob", "bob@host", "host")
  {
    RegexTakesPrecedence(rx, "^b.b$", "bob");
    assert "re:" + "^b.b$" == "re:^b.b$";
    assert AcceptsSender(rx, ["re:^b.b$"][0], "bob", "bob@host", "host");
  }
}
