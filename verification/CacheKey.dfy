/** `cache_key`: the method, a space, the URL. */
module CacheKey {

  function Key(verb: string, url: string): string {
    verb + " " + url
  }

  /** The first space of a key is where the method ends. */
  lemma FirstSpace(verb: string, url: string)
    requires ' ' !in verb
    ensures Key(verb, url)[|verb|] == ' '
    ensures forall i :: 0 <= i < |verb| ==> Key(verb, url)[i] != ' '
  {
  }

  /** Methods contain no space, so the key determines method and URL. */
  lemma KeyIsInjective(verb: string, url: string, verb': string, url': string)
    requires ' ' !in verb && ' ' !in verb'
    requires Key(verb, url) == Key(verb', url')
    ensures verb == verb' && url == url'
  {
    var k := Key(verb, url);
    FirstSpace(verb, url);
    FirstSpace(verb', url');
    assert |verb| == |verb'|;
    assert verb == k[..|verb|] && verb' == k[..|verb'|];
    assert url == k[|verb| + 1..] && url' == k[|verb'| + 1..];
  }
}
