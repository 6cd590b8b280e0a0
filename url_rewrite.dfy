/**
 Turning the work ids that a search returns into the URLs of the API: each id has
 every "https://" replaced by "https://api.", as Python's `str.replace` does.
 */
module UrlRewrite {

  /** The scheme prefix that the work ids carry. */
  const Https: string := "https://"

  /** What the scheme prefix is rewritten to, to address the API host. */
  const ApiHttps: string := "https://api."

  /** `s` begins with `p`. */
  predicate StartsWith(s: string, p: string)
  {
    |p| <= |s| && s[..|p|] == p
  }

  /**
   Python's `s.replace(pat, rep)` for a non-empty `pat`: scanning from the left, each
   occurrence of `pat` is replaced by `rep` and scanning resumes after it, so the
   occurrences replaced never overlap.
   */
  function ReplaceAll(s: string, pat: string, rep: string): (r: string)
    requires pat != ""
    ensures |pat| <= |rep| ==> |s| <= |r|
    decreases |s|
  {
    if s == [] then []
    else if StartsWith(s, pat) then rep + ReplaceAll(s[|pat|..], pat, rep)
    else [s[0]] + ReplaceAll(s[1..], pat, rep)
  }

  /** A string in which `pat` never starts comes back unchanged. */
  lemma {:induction false} ReplaceAllAbsent(s: string, pat: string, rep: string)
    requires pat != ""
    requires forall i :: 0 <= i < |s| ==> !StartsWith(s[i..], pat)
    ensures ReplaceAll(s, pat, rep) == s
    decreases |s|
  {
    if s != [] {
      assert s[0..] == s;
      forall i | 0 <= i < |s| - 1
        ensures !StartsWith(s[1..][i..], pat)
      {
        assert s[1..][i..] == s[i + 1..];
      }
      ReplaceAllAbsent(s[1..], pat, rep);
    }
  }

  /** One id turned into its API URL (the list comprehension's element expression). */
  function ApiUrl(id: string): (url: string)
    ensures |id| <= |url|
  {
    ReplaceAll(id, Https, ApiHttps)
  }

  /** The inverse rewrite: every "https://api." back to "https://". */
  function WebUrl(url: string): string
  {
    ReplaceAll(url, ApiHttps, Https)
  }

  /**
   The rewrite never lets an 'h' in through a copied character: as long as the first
   `k` characters of the output contain no 'h', they were copied from the input.
   */
  lemma {:induction false} CopiedPrefix(u: string, k: nat)
    requires k <= |ApiUrl(u)|
    ensures (forall i :: 0 <= i < k ==> ApiUrl(u)[i] != 'h') ==> k <= |u| && u[..k] == ApiUrl(u)[..k]
    decreases |u|
  {
    if k > 0 && u != [] {
      if StartsWith(u, Https) {
        assert ApiUrl(u) == ApiHttps + ApiUrl(u[|Https|..]);
        assert ApiUrl(u)[0] == 'h';
      } else {
        var rest := ApiUrl(u[1..]);
        assert ApiUrl(u) == [u[0]] + rest;
        if forall i :: 0 <= i < k ==> ApiUrl(u)[i] != 'h' {
          forall i | 0 <= i < k - 1
            ensures rest[i] != 'h'
          {
            assert rest[i] == ApiUrl(u)[i + 1];
          }
        }
        CopiedPrefix(u[1..], k - 1);
        assert u == [u[0]] + u[1..];
      }
    }
  }

  /** The rewrite loses nothing: undoing it gives the original id back, for every id. */
  lemma {:induction false} ApiUrlRoundTrip(s: string)
    ensures WebUrl(ApiUrl(s)) == s
    decreases |s|
  {
    if s == [] {
    } else if StartsWith(s, Https) {
      var t := ApiUrl(s[|Https|..]);
      assert ApiUrl(s) == ApiHttps + t;
      assert StartsWith(ApiHttps + t, ApiHttps);
      assert (ApiHttps + t)[|ApiHttps|..] == t;
      ApiUrlRoundTrip(s[|Https|..]);
      assert s == Https + s[|Https|..];
    } else {
      var t := ApiUrl(s[1..]);
      assert ApiUrl(s) == [s[0]] + t;
      if StartsWith([s[0]] + t, ApiHttps) {
        var w := [s[0]] + t;
        assert w[..12] == ApiHttps;
        assert s[0] == w[0] == ApiHttps[0] == 'h';
        forall i | 0 <= i < 7
          ensures ApiUrl(s[1..])[i] != 'h'
        {
          assert t[i] == w[i + 1] == ApiHttps[i + 1];
        }
        assert t[..7] == "ttps://" by {
          forall i | 0 <= i < 7 ensures t[i] == "ttps://"[i] {
            assert t[i] == w[i + 1] == ApiHttps[i + 1];
          }
        }
        assert |s| >= 8 ==> s[..|Https|] == [s[0]] + s[1..][..7];
        CopiedPrefix(s[1..], 7);
        assert false;
      }
      assert ([s[0]] + t)[1..] == t;
      ApiUrlRoundTrip(s[1..]);
      assert s == [s[0]] + s[1..];
    }
  }

  /**
   The URL list built from the search results: same length and order as the ids, each
   entry rewritten, and each rewriting back to its id, so the list determines the ids.
   */
  function ApiUrls(ids: seq<string>): (urls: seq<string>)
    ensures |urls| == |ids|
    ensures forall i :: 0 <= i < |ids| ==> WebUrl(urls[i]) == ids[i]
  {
    assert forall i :: 0 <= i < |ids| ==> WebUrl(ApiUrl(ids[i])) == ids[i] by {
      forall i | 0 <= i < |ids| {
        ApiUrlRoundTrip(ids[i]);
      }
    }
    seq(|ids|, i requires 0 <= i < |ids| => ApiUrl(ids[i]))
  }
}
