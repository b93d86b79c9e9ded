/** What the three protocols' in_get_auth functions have in common: auth.h and
    the in_get_auth pointer of protocol_t.h. */
module ClientAuth {
  import opened Text

  /** struct auth: authz is there only when a SASL exchange gave one. */
  datatype Auth = Auth(authz: Option<string>, user: string, passwd: string) {
    /** auth_get_authorisation_id. */
    function Id(): string {
      if authz.Some? then authz.value else user
    }

    /** auth_set_authorisation_id. */
    function WithId(id: string): (r: Auth)
      ensures r.Id() == id && r.passwd == passwd && r.authz.Some? == authz.Some?
      ensures authz.Some? ==> r.user == user
    {
      if authz.Some? then Auth(Some(id), user, passwd) else Auth(None, id, passwd)
    }
  }

  /** The answers of in_get_auth: -1, 0 with credentials and the client's tag, 1, 2. */
  datatype Answer = Failed | LoggedIn(auth: Auth, tag: string) | Quitted | Upgrade

  /** An answer, the bytes left unread, and everything said on the way. */
  datatype Run = Run(answer: Answer, rest: string, said: string)

  function Said(said: string, r: Run): Run { Run(r.answer, r.rest, said + r.said) }

  lemma SaidTwice(a: string, b: string, r: Run)
    ensures Said(a, Said(b, r)) == Said(a + b, r)
    ensures Said("", r) == r
  {
    assert a + (b + r.said) == a + b + r.said;
  }
}
