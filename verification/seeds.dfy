/**
  The crawl configuration fixed in `CryptoNewsSpider`: the domain allow-list and
  the seed URLs, together with the host rule the offsite filter applies to them
  (a host is in scope when it equals an allowed domain or ends with "." followed
  by that domain).
 */
module SeedConfig {
  import opened Wrappers

  const AllowedDomains: seq<string> := [
    "coindesk.com", "cointelegraph.com", "decrypt.co", "bitcoin.com", "beincrypto.com",
    "theblock.co", "cryptonews.com", "u.today", "cryptoslate.com", "cryptobriefing.com",
    "cryptopotato.com", "cryptonews.net", "coinpedia.org", "dailycoin.com", "ambcrypto.com",
    "blockworks.co", "bitcoinmagazine.com", "thedefiant.io", "cryptopanic.com", "coingape.com",
    "thecryptobasic.com", "coincodex.com", "messari.io", "cryptoflies.com", "nftevening.com",
    "unchainedcrypto.com", "globalcryptopress.com", "datawallet.com", "holder.io"
  ]

  const StartUrls: seq<string> := [
    "https://www.coindesk.com/", "https://cointelegraph.com/", "https://decrypt.co/",
    "https://news.bitcoin.com/", "https://beincrypto.com/", "https://www.theblock.co/",
    "https://cryptonews.com/", "https://u.today/", "https://cryptoslate.com/",
    "https://cryptobriefing.com/", "https://cryptopotato.com/", "https://cryptonews.net/",
    "https://coinpedia.org/", "https://dailycoin.com/", "https://ambcrypto.com/",
    "https://blockworks.co/", "https://bitcoinmagazine.com/", "https://thedefiant.io/",
    "https://cryptopanic.com/", "https://coingape.com/", "https://thecryptobasic.com/",
    "https://coincodex.com/", "https://messari.io/", "https://cryptoflies.com/",
    "https://nftevening.com/", "https://unchainedcrypto.com/", "https://www.globalcryptopress.com/",
    "https://datawallet.com/", "https://holder.io/"
  ]

  /** The characters of `s` before its first `/` (all of `s` when there is none). */
  function TakeUntilSlash(s: string): (r: string)
    ensures |r| <= |s| && r == s[..|r|]
    ensures '/' !in r
    ensures |r| < |s| ==> s[|r|] == '/'
  {
    if |s| == 0 || s[0] == '/' then "" else [s[0]] + TakeUntilSlash(s[1..])
  }

  const Https := "https://"

  /** The host of an `https` URL: what follows the scheme up to the first `/`; `None` for any other scheme. */
  function HostOf(url: string): (r: Option<string>)
    ensures r.Some? <==> |url| >= |Https| && url[..|Https|] == Https
    ensures r.Some? ==> |Https| + |r.value| <= |url| && url == Https + r.value + url[|Https| + |r.value|..]
    ensures r.Some? ==> '/' !in r.value
  {
    if |url| >= |Https| && url[..|Https|] == Https then
      var host := TakeUntilSlash(url[|Https|..]);
      assert url == Https + url[|Https|..];
      Some(host)
    else None
  }

  /** The offsite rule: `host` is `domain` itself or ends with "." followed by `domain`. */
  predicate HostMatches(host: string, domain: string) {
    host == domain || (|host| > |domain| && host[|host| - |domain| - 1..] == "." + domain)
  }

  /** `url` is in scope for the allow-list `domains`. */
  predicate UrlAllowed(url: string, domains: seq<string>) {
    HostOf(url).Some? && exists d :: d in domains && HostMatches(HostOf(url).value, d)
  }

  /** A dotted subdomain of `domain` matches it. */
  lemma SubdomainMatches(sub: string, domain: string)
    ensures HostMatches(sub + "." + domain, domain)
  {
    var host := sub + "." + domain;
    assert host[|host| - |domain| - 1..] == "." + domain;
  }

  lemma {:induction false} TakeUntilPrefix(host: string, rest: string)
    requires '/' !in host && |rest| > 0 && rest[0] == '/'
    ensures TakeUntilSlash(host + rest) == host
  {
    if |host| > 0 {
      assert (host + rest)[1..] == host[1..] + rest;
      assert host[0] in host;
      assert '/' !in host[1..] by {
        forall c | c in host[1..] ensures c != '/' {
          var i :| 0 <= i < |host[1..]| && host[1..][i] == c;
          assert host[i + 1] == c;
        }
      }
      TakeUntilPrefix(host[1..], rest);
    } else {
      assert host + rest == rest;
    }
  }

  /** The host of `https://<host>/` is `<host>`. */
  lemma HostOfSlashed(url: string, host: string)
    requires '/' !in host && url == Https + host + "/"
    ensures HostOf(url) == Some(host)
  {
    assert url[..|Https|] == Https;
    assert url[|Https|..] == host + "/";
    TakeUntilPrefix(host, "/");
  }

  /** The host of `url` is `domain` or a subdomain of it. */
  predicate UrlMatchesDomain(url: string, domain: string) {
    HostOf(url).Some? && HostMatches(HostOf(url).value, domain)
  }

  /** The `i`-th seed's host is the `i`-th allowed domain or a subdomain of it. */
  predicate SeedMatchesDomain(i: nat)
    requires i < |StartUrls| && i < |AllowedDomains|
  {
    UrlMatchesDomain(StartUrls[i], AllowedDomains[i])
  }

  /** `https://<domain>/` is in scope for `domain`. */
  lemma DomainUrlMatches(domain: string)
    requires '/' !in domain
    ensures UrlMatchesDomain(Https + domain + "/", domain)
  {
    HostOfSlashed(Https + domain + "/", domain);
  }

  /** `https://<sub>.<domain>/` is in scope for `domain`. */
  lemma SubdomainUrlMatches(sub: string, domain: string)
    requires '/' !in sub + "." + domain
    ensures UrlMatchesDomain(Https + sub + "." + domain + "/", domain)
  {
    HostOfSlashed(Https + sub + "." + domain + "/", sub + "." + domain);
    SubdomainMatches(sub, domain);
  }

  // One lemma per seed: each proof is about a single pair of string literals, which
  // keeps every proof obligation small.
  lemma Seed0Matches() ensures SeedMatchesDomain(0) {
    var sub, domain := "www", "coindesk.com";
    assert StartUrls[0] == Https + sub + "." + domain + "/" && AllowedDomains[0] == domain;
    SubdomainUrlMatches(sub, domain);
  }
  lemma Seed1Matches() ensures SeedMatchesDomain(1) {
    var domain := "cointelegraph.com";
    assert StartUrls[1] == Https + domain + "/" && AllowedDomains[1] == domain;
    DomainUrlMatches(domain);
  }
  lemma Seed2Matches() ensures SeedMatchesDomain(2) {
    var domain := "decrypt.co";
    assert StartUrls[2] == Https + domain + "/" && AllowedDomains[2] == domain;
    DomainUrlMatches(domain);
  }
  lemma Seed3Matches() ensures SeedMatchesDomain(3) {
    var sub, domain := "news", "bitcoin.com";
    assert StartUrls[3] == Https + sub + "." + domain + "/" && AllowedDomains[3] == domain;
    SubdomainUrlMatches(sub, domain);
  }
  lemma Seed4Matches() ensures SeedMatchesDomain(4) {
    var domain := "beincrypto.com";
    assert StartUrls[4] == Https + domain + "/" && AllowedDomains[4] == domain;
    DomainUrlMatches(domain);
  }
  lemma Seed5Matches() ensures SeedMatchesDomain(5) {
    var sub, domain := "www", "theblock.co";
    assert StartUrls[5] == Https + sub + "." + domain + "/" && AllowedDomains[5] == domain;
    SubdomainUrlMatches(sub, domain);
  }
  lemma Seed6Matches() ensures SeedMatchesDomain(6) {
    var domain := "cryptonews.com";
    assert StartUrls[6] == Https + domain + "/" && AllowedDomains[6] == domain;
    DomainUrlMatches(domain);
  }
  lemma Seed7Matches() ensures SeedMatchesDomain(7) {
    var domain := "u.today";
    assert StartUrls[7] == Https + domain + "/" && AllowedDomains[7] == domain;
    DomainUrlMatches(domain);
  }
  lemma Seed8Matches() ensures SeedMatchesDomain(8) {
    var domain := "cryptoslate.com";
    assert StartUrls[8] == Https + domain + "/" && AllowedDomains[8] == domain;
    DomainUrlMatches(domain);
  }
  lemma Seed9Matches() ensures SeedMatchesDomain(9) {
    var domain := "cryptobriefing.com";
    assert StartUrls[9] == Https + domain + "/" && AllowedDomains[9] == domain;
    DomainUrlMatches(domain);
  }
  lemma Seed10Matches() ensures SeedMatchesDomain(10) {
    var domain := "cryptopotato.com";
    assert StartUrls[10] == Https + domain + "/" && AllowedDomains[10] == domain;
    DomainUrlMatches(domain);
  }
  lemma Seed11Matches() ensures SeedMatchesDomain(11) {
    var domain := "cryptonews.net";
    assert StartUrls[11] == Https + domain + "/" && AllowedDomains[11] == domain;
    DomainUrlMatches(domain);
  }
  lemma Seed12Matches() ensures SeedMatchesDomain(12) {
    var domain := "coinpedia.org";
    assert StartUrls[12] == Https + domain + "/" && AllowedDomains[12] == domain;
    DomainUrlMatches(domain);
  }
  lemma Seed13Matches() ensures SeedMatchesDomain(13) {
    var domain := "dailycoin.com";
    assert StartUrls[13] == Https + domain + "/" && AllowedDomains[13] == domain;
    DomainUrlMatches(domain);
  }
  lemma Seed14Matches() ensures SeedMatchesDomain(14) {
    var domain := "ambcrypto.com";
    assert StartUrls[14] == Https + domain + "/" && AllowedDomains[14] == domain;
    DomainUrlMatches(domain);
  }
  lemma Seed15Matches() ensures SeedMatchesDomain(15) {
    var domain := "blockworks.co";
    assert StartUrls[15] == Https + domain + "/" && AllowedDomains[15] == domain;
    DomainUrlMatches(domain);
  }
  lemma Seed16Matches() ensures SeedMatchesDomain(16) {
    var domain := "bitcoinmagazine.com";
    assert StartUrls[16] == Https + domain + "/" && AllowedDomains[16] == domain;
    DomainUrlMatches(domain);
  }
  lemma Seed17Matches() ensures SeedMatchesDomain(17) {
    var domain := "thedefiant.io";
    assert StartUrls[17] == Https + domain + "/" && AllowedDomains[17] == domain;
    DomainUrlMatches(domain);
  }
  lemma Seed18Matches() ensures SeedMatchesDomain(18) {
    var domain := "cryptopanic.com";
    assert StartUrls[18] == Https + domain + "/" && AllowedDomains[18] == domain;
    DomainUrlMatches(domain);
  }
  lemma Seed19Matches() ensures SeedMatchesDomain(19) {
    var domain := "coingape.com";
    assert StartUrls[19] == Https + domain + "/" && AllowedDomains[19] == domain;
    DomainUrlMatches(domain);
  }
  lemma Seed20Matches() ensures SeedMatchesDomain(20) {
    var domain := "thecryptobasic.com";
    assert StartUrls[20] == Https + domain + "/" && AllowedDomains[20] == domain;
    DomainUrlMatches(domain);
  }
  lemma Seed21Matches() ensures SeedMatchesDomain(21) {
    var domain := "coincodex.com";
    assert StartUrls[21] == Https + domain + "/" && AllowedDomains[21] == domain;
    DomainUrlMatches(domain);
  }
  lemma Seed22Matches() ensures SeedMatchesDomain(22) {
    var domain := "messari.io";
    assert StartUrls[22] == Https + domain + "/" && AllowedDomains[22] == domain;
    DomainUrlMatches(domain);
  }
  lemma Seed23Matches() ensures SeedMatchesDomain(23) {
    var domain := "cryptoflies.com";
    assert StartUrls[23] == Https + domain + "/" && AllowedDomains[23] == domain;
    DomainUrlMatches(domain);
  }
  lemma Seed24Matches() ensures SeedMatchesDomain(24) {
    var domain := "nftevening.com";
    assert StartUrls[24] == Https + domain + "/" && AllowedDomains[24] == domain;
    DomainUrlMatches(domain);
  }
  lemma Seed25Matches() ensures SeedMatchesDomain(25) {
    var domain := "unchainedcrypto.com";
    assert StartUrls[25] == Https + domain + "/" && AllowedDomains[25] == domain;
    DomainUrlMatches(domain);
  }
  lemma Seed26Matches() ensures SeedMatchesDomain(26) {
    var sub, domain := "www", "globalcryptopress.com";
    assert StartUrls[26] == Https + sub + "." + domain + "/" && AllowedDomains[26] == domain;
    SubdomainUrlMatches(sub, domain);
  }
  lemma Seed27Matches() ensures SeedMatchesDomain(27) {
    var domain := "datawallet.com";
    assert StartUrls[27] == Https + domain + "/" && AllowedDomains[27] == domain;
    DomainUrlMatches(domain);
  }
  lemma Seed28Matches() ensures SeedMatchesDomain(28) {
    var domain := "holder.io";
    assert StartUrls[28] == Https + domain + "/" && AllowedDomains[28] == domain;
    DomainUrlMatches(domain);
  }

  /** Each seed's host is its own domain or a subdomain of it. */
  lemma SeedMatches(i: nat)
    requires i < |StartUrls|
    ensures |StartUrls| == |AllowedDomains| == 29
    ensures SeedMatchesDomain(i)
  {
    if i == 0 { Seed0Matches(); }
    else if i == 1 { Seed1Matches(); }
    else if i == 2 { Seed2Matches(); }
    else if i == 3 { Seed3Matches(); }
    else if i == 4 { Seed4Matches(); }
    else if i == 5 { Seed5Matches(); }
    else if i == 6 { Seed6Matches(); }
    else if i == 7 { Seed7Matches(); }
    else if i == 8 { Seed8Matches(); }
    else if i == 9 { Seed9Matches(); }
    else if i == 10 { Seed10Matches(); }
    else if i == 11 { Seed11Matches(); }
    else if i == 12 { Seed12Matches(); }
    else if i == 13 { Seed13Matches(); }
    else if i == 14 { Seed14Matches(); }
    else if i == 15 { Seed15Matches(); }
    else if i == 16 { Seed16Matches(); }
    else if i == 17 { Seed17Matches(); }
    else if i == 18 { Seed18Matches(); }
    else if i == 19 { Seed19Matches(); }
    else if i == 20 { Seed20Matches(); }
    else if i == 21 { Seed21Matches(); }
    else if i == 22 { Seed22Matches(); }
    else if i == 23 { Seed23Matches(); }
    else if i == 24 { Seed24Matches(); }
    else if i == 25 { Seed25Matches(); }
    else if i == 26 { Seed26Matches(); }
    else if i == 27 { Seed27Matches(); }
    else { Seed28Matches(); }
  }

  /** The i-th seed is served by the i-th allowed domain (the two lists run in parallel). */
  lemma SeedsMatchDomainsPairwise()
    ensures |StartUrls| == |AllowedDomains| == 29
    ensures forall i :: 0 <= i < |StartUrls| ==> SeedMatchesDomain(i)
  {
    forall i | 0 <= i < |StartUrls| ensures SeedMatchesDomain(i) {
      SeedMatches(i);
    }
  }

  /** Every seed URL's host matches some allowed domain under the offsite host rule. */
  lemma SeedsAllowed()
    ensures forall i :: 0 <= i < |StartUrls| ==> UrlAllowed(StartUrls[i], AllowedDomains)
  {
    SeedsMatchDomainsPairwise();
    forall i | 0 <= i < |StartUrls| ensures UrlAllowed(StartUrls[i], AllowedDomains) {
      assert SeedMatchesDomain(i);
      assert AllowedDomains[i] in AllowedDomains;
    }
  }
}
