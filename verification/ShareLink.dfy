/** The private part of a share link: the fragment that names a note and carries its secret. The URL around
    it is not part of this model. */
module ShareLinks {
  import opened Wrappers
  import opened Bytes
  import opened Base64Url

  datatype Link = Link(id: string, secret: string)

  // shared/encoding.ts makeShareLink, after the origin
  function MakeFragment(link: Link): Option<string> {
    if FromBase64Url(link.id, Some(32), 32).None? || FromBase64Url(link.secret, Some(32), 32).None? then None
    else Some("#1." + link.id + "." + link.secret)
  }

  // The pattern of parseShareLink: two groups of 43 characters.
  predicate MatchesFragment(hash: string) {
    && |hash| == 90 && hash[..3] == "#1." && hash[46] == '.'
    && (forall i :: 3 <= i < 46 ==> IsUrlChar(hash[i])) && (forall i :: 47 <= i < 90 ==> IsUrlChar(hash[i]))
  }

  function ParseFragment(hash: string): Option<Link> {
    if !MatchesFragment(hash) then None
    else
      var link := Link(hash[3..46], hash[47..90]);
      if FromBase64Url(link.id, Some(32), 32).None? || FromBase64Url(link.secret, Some(32), 32).None? then None
      else Some(link)
  }

  // An identifier of 32 bytes and a master secret of 32 bytes.
  predicate Names(link: Link, id: seq<byte>, master: seq<byte>) {
    |id| == 32 == |master| && link == Link(Canonical(id), Canonical(master))
  }

  lemma TokensAre(link: Link)
    ensures FromBase64Url(link.id, Some(32), 32).Some? && FromBase64Url(link.secret, Some(32), 32).Some?
       <==> exists id, master :: Names(link, id, master)
  {
    hide Canonical, FromBase64Url;
    forall b: seq<byte> | |b| == 32 ensures FromBase64Url(Canonical(b), Some(32), 32) == Some(b) {
      ClientAcceptsCanonical(Canonical(b), Some(32), 32, b);
    }
    var id, master := FromBase64Url(link.id, Some(32), 32), FromBase64Url(link.secret, Some(32), 32);
    if id.Some? && master.Some? {
      ClientAcceptsCanonical(link.id, Some(32), 32, id.value);
      ClientAcceptsCanonical(link.secret, Some(32), 32, master.value);
      assert Names(link, id.value, master.value);
    }
  }

  lemma FragmentMatches(link: Link, id: seq<byte>, master: seq<byte>)
    requires Names(link, id, master)
    ensures var hash := "#1." + link.id + "." + link.secret;
            MatchesFragment(hash) && hash[3..46] == link.id && hash[47..90] == link.secret
  {
    CanonicalIs(id);
    CanonicalIs(master);
    assert AllUrl(Canonical(id)) && AllUrl(Canonical(master));
    hide Canonical, IsUrlChar;
    var hash := "#1." + link.id + "." + link.secret;
    assert hash[3..46] == link.id && hash[47..90] == link.secret;
    assert forall i :: 3 <= i < 46 ==> hash[i] == link.id[i - 3];
    assert forall i :: 47 <= i < 90 ==> hash[i] == link.secret[i - 47];
  }

  /** A fragment is read as a link exactly if it names an identifier and a secret of 32 bytes each, in this
      form; and it is then the fragment made for that link. */
  lemma FragmentsRead(hash: string, link: Link)
    ensures ParseFragment(hash) == Some(link)
       <==> hash == "#1." + link.id + "." + link.secret && exists id, master :: Names(link, id, master)
    ensures ParseFragment(hash) == Some(link) <==> MakeFragment(link) == Some(hash)
  {
    hide FromBase64Url, IsUrlChar, Names;
    TokensAre(link);
    if MakeFragment(link) == Some(hash) {
      var id, master :| Names(link, id, master);
      FragmentMatches(link, id, master);
    }
    if ParseFragment(hash) == Some(link) {
      assert hash == hash[..3] + hash[3..46] + [hash[46]] + hash[47..90];
    }
  }
}
