/**
 * The two URL templates of mocword-download: the index page that lists the
 * data files of one (language, ngram) selector, and the total-counts file of
 * the same selector. Both live under one fixed host and corpus version and
 * share the per-language directory.
 */
module Urls {
  import Flags

  /** Host, path and corpus version shared by every URL. */
  const Prefix: string := "http://storage.googleapis.com/books/ngrams/books/20200217/"

  const IndexSuffix: string := "-ngrams_exports.html"

  /** The directory of one language: `<Prefix><lang>/`. */
  function LangDir(lang: string): string
  {
    Prefix + lang + "/"
  }

  /** `downloadIndexURL`: `<Prefix><lang>/<lang>-<ngram>-ngrams_exports.html`. */
  function DownloadIndexURL(lang: string, ngram: string): string
  {
    Prefix + lang + "/" + lang + "-" + ngram + IndexSuffix
  }

  /** `totalCountsURL`: `<Prefix><lang>/totalcounts-<ngram>`. */
  function TotalCountsURL(lang: string, ngram: string): string
  {
    Prefix + lang + "/totalcounts-" + ngram
  }

  /** Both URLs of a selector lie in its language's directory, and the file names are as the templates say. */
  lemma URLsInLangDir(lang: string, ngram: string)
    ensures Prefix <= LangDir(lang)
    ensures LangDir(lang) <= DownloadIndexURL(lang, ngram)
    ensures LangDir(lang) <= TotalCountsURL(lang, ngram)
    ensures DownloadIndexURL(lang, ngram)[|LangDir(lang)|..] == lang + "-" + ngram + IndexSuffix
    ensures TotalCountsURL(lang, ngram)[|LangDir(lang)|..] == "totalcounts-" + ngram
  {
  }

  /** A URL ends with the suffix of the index template. */
  lemma IndexURLSuffix(lang: string, ngram: string)
    ensures var u := DownloadIndexURL(lang, ngram);
      |u| >= |IndexSuffix| && u[|u| - |IndexSuffix|..] == IndexSuffix
  {
  }

  /** In `a + "/" + b` with no '/' in `a`, the first '/' is at index `|a|`. */
  lemma FirstSlashAt(a: string, b: string)
    requires '/' !in a
    ensures (a + "/" + b)[|a|] == '/'
    ensures forall i :: 0 <= i < |a| ==> (a + "/" + b)[i] != '/'
  {
  }

  /** Cutting at the first slash: a string without '/' before it is determined. */
  lemma {:induction false} FirstSlash(a: string, b: string, c: string, d: string)
    requires '/' !in a && '/' !in c
    requires a + "/" + b == c + "/" + d
    ensures a == c && b == d
  {
    var s := a + "/" + b;
    FirstSlashAt(a, b);
    FirstSlashAt(c, d);
    assert |a| == |c|;
    assert a == s[..|a|];
    assert c == (c + "/" + d)[..|c|];
    assert b == s[|a| + 1..];
    assert d == (c + "/" + d)[|c| + 1..];
  }

  /** Equal strings with a common prefix and suffix have equal middles. */
  lemma CancelAround(p: string, x: string, y: string, q: string)
    requires p + x + q == p + y + q
    ensures x == y
  {
    assert x == (p + x + q)[|p|..|p| + |x|];
    assert y == (p + y + q)[|p|..|p| + |y|];
  }

  /** `<p><lang>/<lang>-<ngram><q>` determines `lang` and `ngram` when `lang` has no '/'. */
  lemma {:induction false} IndexTemplateInjective(p: string, q: string, lang1: string, ngram1: string, lang2: string, ngram2: string)
    requires '/' !in lang1 && '/' !in lang2
    requires p + lang1 + "/" + lang1 + "-" + ngram1 + q == p + lang2 + "/" + lang2 + "-" + ngram2 + q
    ensures lang1 == lang2 && ngram1 == ngram2
  {
    var rest1 := lang1 + "-" + ngram1;
    var rest2 := lang2 + "-" + ngram2;
    assert p + lang1 + "/" + lang1 + "-" + ngram1 + q == p + (lang1 + "/" + rest1) + q;
    assert p + lang2 + "/" + lang2 + "-" + ngram2 + q == p + (lang2 + "/" + rest2) + q;
    CancelAround(p, lang1 + "/" + rest1, lang2 + "/" + rest2, q);
    FirstSlash(lang1, rest1, lang2, rest2);
    CancelAround(lang1 + "-", ngram1, ngram2, "");
  }

  /** For languages without '/', distinct selectors give distinct index URLs. */
  lemma DownloadIndexURLInjective(lang1: string, ngram1: string, lang2: string, ngram2: string)
    requires '/' !in lang1 && '/' !in lang2
    requires DownloadIndexURL(lang1, ngram1) == DownloadIndexURL(lang2, ngram2)
    ensures lang1 == lang2 && ngram1 == ngram2
  {
    IndexTemplateInjective(Prefix, IndexSuffix, lang1, ngram1, lang2, ngram2);
  }

  /** `<p><lang>/<mid><ngram>` determines `lang` and `ngram` when `lang` has no '/'. */
  lemma {:induction false} CountsTemplateInjective(p: string, mid: string, lang1: string, ngram1: string, lang2: string, ngram2: string)
    requires '/' !in lang1 && '/' !in lang2
    requires p + lang1 + "/" + mid + ngram1 == p + lang2 + "/" + mid + ngram2
    ensures lang1 == lang2 && ngram1 == ngram2
  {
    assert p + lang1 + "/" + mid + ngram1 == p + (lang1 + "/" + (mid + ngram1)) + "";
    assert p + lang2 + "/" + mid + ngram2 == p + (lang2 + "/" + (mid + ngram2)) + "";
    CancelAround(p, lang1 + "/" + (mid + ngram1), lang2 + "/" + (mid + ngram2), "");
    FirstSlash(lang1, mid + ngram1, lang2, mid + ngram2);
    CancelAround(mid, ngram1, ngram2, "");
  }

  /** For languages without '/', distinct selectors give distinct total-counts URLs. */
  lemma TotalCountsURLInjective(lang1: string, ngram1: string, lang2: string, ngram2: string)
    requires '/' !in lang1 && '/' !in lang2
    requires TotalCountsURL(lang1, ngram1) == TotalCountsURL(lang2, ngram2)
    ensures lang1 == lang2 && ngram1 == ngram2
  {
    assert Prefix + lang1 + "/totalcounts-" + ngram1 == Prefix + lang1 + "/" + "totalcounts-" + ngram1;
    assert Prefix + lang2 + "/totalcounts-" + ngram2 == Prefix + lang2 + "/" + "totalcounts-" + ngram2;
    CountsTemplateInjective(Prefix, "totalcounts-", lang1, ngram1, lang2, ngram2);
  }

  /** Every whitelisted selector has its own index URL. */
  lemma WhitelistedSelectorsHaveDistinctIndexURLs(lang1: string, ngram1: string, lang2: string, ngram2: string)
    requires lang1 in Flags.ValidLanguages && lang2 in Flags.ValidLanguages
    requires ngram1 in Flags.ValidNgrams && ngram2 in Flags.ValidNgrams
    requires (lang1, ngram1) != (lang2, ngram2)
    ensures DownloadIndexURL(lang1, ngram1) != DownloadIndexURL(lang2, ngram2)
  {
    if DownloadIndexURL(lang1, ngram1) == DownloadIndexURL(lang2, ngram2) {
      DownloadIndexURLInjective(lang1, ngram1, lang2, ngram2);
    }
  }
}
