/**
 * The range source adapter: from the parsed `ip-ranges.json` document, keep
 * the `ip_prefix` of every entry whose `service` is `CLOUDFRONT` and whose
 * prefix matches the IPv4 prefix pattern. Other entries are dropped
 * without error.
 */
module RangeFeed {
  import opened Wrappers
  import opened Ip4Cidr

  const CloudFrontService: string := "CLOUDFRONT"

  /** One object of the feed's `prefixes` list; either field may be absent. */
  datatype FeedEntry = FeedEntry(service: Option<string>, ipPrefix: Option<string>)

  /** The parsed feed; `prefixes` may be absent. */
  datatype FeedDocument = FeedDocument(prefixes: Option<seq<FeedEntry>>)

  /** The reducer's test: the service is CloudFront and `ip_prefix` (default "") matches. */
  predicate Qualifies(e: FeedEntry) {
    e.service == Some(CloudFrontService) && IsIp4Cidr(e.ipPrefix.GetOr(""))
  }

  /** A CloudFront entry carrying exactly the prefix `c`, which matches the pattern. */
  predicate Announces(e: FeedEntry, c: string) {
    e.service == Some(CloudFrontService) && e.ipPrefix == Some(c) && IsIp4Cidr(c)
  }

  /** A missing `ip_prefix` reads as "", which does not match. */
  lemma EmptyIsNotCidr()
    ensures !IsIp4Cidr("")
  {
  }

  /** The left fold of the reducer over `entries`, starting from `acc`. */
  function CollectPrefixes(acc: set<string>, entries: seq<FeedEntry>): (r: set<string>)
    ensures forall c :: c in r <==>
      c in acc || exists i :: 0 <= i < |entries| && Announces(entries[i], c)
    decreases entries
  {
    if entries == [] then acc
    else
      var e := entries[0];
      if Qualifies(e) then
        EmptyIsNotCidr();
        CollectPrefixes(acc + {e.ipPrefix.value}, entries[1..])
      else
        CollectPrefixes(acc, entries[1..])
  }

  /** The prefixes the feed announces for CloudFront, as `load_cloudfront_cidr_set` returns them. */
  function LoadCidrSet(doc: FeedDocument): (r: set<string>)
    ensures forall c :: c in r <==> exists e :: e in doc.prefixes.GetOr([]) && Announces(e, c)
    ensures forall c :: c in r ==> IsIp4Cidr(c)
  {
    CollectPrefixes({}, doc.prefixes.GetOr([]))
  }

  /** A feed that announces no valid CloudFront prefix yields the empty set. */
  lemma NoQualifyingEntries(doc: FeedDocument)
    requires forall e :: e in doc.prefixes.GetOr([]) ==> !Qualifies(e)
    ensures LoadCidrSet(doc) == {}
  {
  }

  /** Entries added to the feed that do not qualify change nothing. */
  lemma IgnoresNonQualifying(entries: seq<FeedEntry>, noise: seq<FeedEntry>)
    requires forall e :: e in noise ==> !Qualifies(e)
    ensures LoadCidrSet(FeedDocument(Some(entries + noise))) == LoadCidrSet(FeedDocument(Some(entries)))
  {
    var all := entries + noise;
    forall c | c in LoadCidrSet(FeedDocument(Some(all)))
      ensures c in LoadCidrSet(FeedDocument(Some(entries)))
    {
      var e :| e in all && Announces(e, c);
      assert Qualifies(e);
    }
  }
}
