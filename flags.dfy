/**
 * Validation of the `-language` and `-ngram` selectors of mocword-download.
 *
 * Each flag is a comma-separated list of tokens that must come from a fixed
 * whitelist. `FindInvalidFlagElement` reports the first token that is not in
 * the whitelist, or `""` when there is none; the `Verify*` functions turn that
 * answer into an error. Because the "nothing wrong" answer is the empty
 * string, an empty token (from `""` or `"eng,,fre"`) is reported as `""` and
 * therefore accepted: see `EmptyTokenHidesLaterInvalid` and the strict
 * variants at the end of this module.
 */
module Flags {
  import opened Wrappers
  import opened GoStrings

  const ValidLanguages: seq<string> :=
    ["eng", "eng-us", "eng-gb", "eng-fiction", "chi_sim", "fre", "ger", "heb", "ita", "rus", "spa"]

  const ValidNgrams: seq<string> := ["1", "2", "3", "4", "5"]

  /** The flags' default values: every whitelist entry, comma-separated. */
  function DefaultLanguage(): string { Join(ValidLanguages, ',') }
  function DefaultNgram(): string { Join(ValidNgrams, ',') }

  /** The errors `verifyFlagLanguage`, `verifyFlagNgram` and `verifyFlags` build. */
  datatype FlagError =
    | InvalidLanguageFlag(token: string)   // "invalid language flag: %q"
    | InvalidNgramFlag(token: string)      // "invalid ngram flag: %q"
    | InvalidFlag(cause: FlagError)        // "invalid flag: %w"

  /** Every token is in the whitelist. */
  ghost predicate AllValid(tokens: seq<string>, validFlags: seq<string>)
  {
    forall k :: 0 <= k < |tokens| ==> tokens[k] in validFlags
  }

  /** Token `k` is the leftmost one outside the whitelist. */
  ghost predicate LeftmostInvalidAt(tokens: seq<string>, validFlags: seq<string>, k: int)
  {
    && 0 <= k < |tokens|
    && tokens[k] !in validFlags
    && forall j :: 0 <= j < k ==> tokens[j] in validFlags
  }

  /** What `findInvalidFlagElement` answers for the pieces of its flag: the first piece outside the whitelist, else `""`. */
  function FirstInvalid(tokens: seq<string>, validFlags: seq<string>): string
  {
    if tokens == [] then ""
    else if tokens[0] !in validFlags then tokens[0]
    else FirstInvalid(tokens[1..], validFlags)
  }

  /** `findInvalidFlagElement`: split on commas, then scan each token against the whitelist with a `found` flag. */
  method FindInvalidFlagElement(rawFlag: string, validFlags: seq<string>) returns (invalid: string)
    ensures invalid == FirstInvalid(Split(rawFlag, ','), validFlags)
  {
    var flags := Split(rawFlag, ',');
    for i := 0 to |flags|
      invariant FirstInvalid(flags[i..], validFlags) == FirstInvalid(flags, validFlags)
    {
      var flg := flags[i];
      var found := false;
      for j := 0 to |validFlags|
        invariant found <==> flg in validFlags[..j]
      {
        found := found || flg == validFlags[j];
      }
      assert validFlags[..|validFlags|] == validFlags;
      if !found {
        return flg;
      }
      assert flags[i..][1..] == flags[i + 1..];
    }
    return "";
  }

  /** When every token is whitelisted, the answer is `""`. */
  lemma {:induction false} FirstInvalidAllValid(tokens: seq<string>, validFlags: seq<string>)
    requires AllValid(tokens, validFlags)
    ensures FirstInvalid(tokens, validFlags) == ""
  {
    if tokens != [] {
      FirstInvalidAllValid(tokens[1..], validFlags);
    }
  }

  /** Otherwise the answer is exactly the leftmost token outside the whitelist. */
  lemma {:induction false} FirstInvalidLeftmost(tokens: seq<string>, validFlags: seq<string>, k: int)
    requires LeftmostInvalidAt(tokens, validFlags, k)
    ensures FirstInvalid(tokens, validFlags) == tokens[k]
  {
    if k > 0 {
      assert tokens[0] in validFlags;
      FirstInvalidLeftmost(tokens[1..], validFlags, k - 1);
    }
  }

  /** The answer is always `""` or a token outside the whitelist. */
  lemma {:induction false} FirstInvalidIsInvalidToken(tokens: seq<string>, validFlags: seq<string>)
    ensures var r := FirstInvalid(tokens, validFlags);
      r == "" || (r in tokens && r !in validFlags)
  {
    if tokens != [] && tokens[0] in validFlags {
      FirstInvalidIsInvalidToken(tokens[1..], validFlags);
    }
  }

  /** Either every token is valid, or there is a leftmost invalid one. */
  lemma {:induction false} AllValidOrLeftmost(tokens: seq<string>, validFlags: seq<string>)
    ensures AllValid(tokens, validFlags) || exists k :: LeftmostInvalidAt(tokens, validFlags, k)
  {
    if tokens != [] {
      if tokens[0] !in validFlags {
        assert LeftmostInvalidAt(tokens, validFlags, 0);
      } else {
        AllValidOrLeftmost(tokens[1..], validFlags);
        if !AllValid(tokens[1..], validFlags) {
          var k :| LeftmostInvalidAt(tokens[1..], validFlags, k);
          assert LeftmostInvalidAt(tokens, validFlags, k + 1);
        }
      }
    }
  }

  /**
   * The empty-token quirk: `""` is the answer exactly when every token is
   * valid or the leftmost invalid token is itself empty.
   */
  lemma {:induction false} FirstInvalidEmptyIff(tokens: seq<string>, validFlags: seq<string>)
    ensures FirstInvalid(tokens, validFlags) == "" <==>
      AllValid(tokens, validFlags) || exists k :: LeftmostInvalidAt(tokens, validFlags, k) && tokens[k] == ""
  {
    AllValidOrLeftmost(tokens, validFlags);
    if AllValid(tokens, validFlags) {
      FirstInvalidAllValid(tokens, validFlags);
    } else {
      var k :| LeftmostInvalidAt(tokens, validFlags, k);
      FirstInvalidLeftmost(tokens, validFlags, k);
      forall k' | LeftmostInvalidAt(tokens, validFlags, k') ensures k' == k {
      }
    }
  }

  /** `verifyFlagLanguage`. */
  function VerifyFlagLanguage(flg: string): Option<FlagError>
  {
    var invalid := FirstInvalid(Split(flg, ','), ValidLanguages);
    if invalid != "" then Some(InvalidLanguageFlag(invalid)) else None
  }

  /** `verifyFlagNgram`. */
  function VerifyFlagNgram(flg: string): Option<FlagError>
  {
    var invalid := FirstInvalid(Split(flg, ','), ValidNgrams);
    if invalid != "" then Some(InvalidNgramFlag(invalid)) else None
  }

  /** `verifyFlags`, with the two global flag values as parameters: the language check runs first. */
  function VerifyFlags(language: string, ngram: string): Option<FlagError>
  {
    match VerifyFlagLanguage(language)
    case Some(e) => Some(InvalidFlag(e))
    case None =>
      match VerifyFlagNgram(ngram)
      case Some(e) => Some(InvalidFlag(e))
      case None => None
  }

  /** A language flag whose tokens are all whitelisted passes. */
  lemma VerifyFlagLanguageAcceptsValid(flg: string)
    requires AllValid(Split(flg, ','), ValidLanguages)
    ensures VerifyFlagLanguage(flg) == None
  {
    FirstInvalidAllValid(Split(flg, ','), ValidLanguages);
  }

  /** A language flag whose leftmost invalid token is non-empty is rejected, naming that token. */
  lemma VerifyFlagLanguageNamesLeftmost(flg: string, k: int)
    requires LeftmostInvalidAt(Split(flg, ','), ValidLanguages, k)
    requires Split(flg, ',')[k] != ""
    ensures VerifyFlagLanguage(flg) == Some(InvalidLanguageFlag(Split(flg, ',')[k]))
  {
    FirstInvalidLeftmost(Split(flg, ','), ValidLanguages, k);
  }

  /** An ngram flag whose tokens are all whitelisted passes. */
  lemma VerifyFlagNgramAcceptsValid(flg: string)
    requires AllValid(Split(flg, ','), ValidNgrams)
    ensures VerifyFlagNgram(flg) == None
  {
    FirstInvalidAllValid(Split(flg, ','), ValidNgrams);
  }

  /** An ngram flag whose leftmost invalid token is non-empty is rejected, naming that token. */
  lemma VerifyFlagNgramNamesLeftmost(flg: string, k: int)
    requires LeftmostInvalidAt(Split(flg, ','), ValidNgrams, k)
    requires Split(flg, ',')[k] != ""
    ensures VerifyFlagNgram(flg) == Some(InvalidNgramFlag(Split(flg, ',')[k]))
  {
    FirstInvalidLeftmost(Split(flg, ','), ValidNgrams, k);
  }

  /** Any error a single-flag check reports names a non-empty token of the flag that is not whitelisted. */
  lemma VerifyFlagErrorsNameInvalidTokens(flg: string)
    ensures VerifyFlagLanguage(flg).Some? ==>
      var t := VerifyFlagLanguage(flg).value.token;
      t != "" && t in Split(flg, ',') && t !in ValidLanguages
    ensures VerifyFlagNgram(flg).Some? ==>
      var t := VerifyFlagNgram(flg).value.token;
      t != "" && t in Split(flg, ',') && t !in ValidNgrams
  {
    FirstInvalidIsInvalidToken(Split(flg, ','), ValidLanguages);
    FirstInvalidIsInvalidToken(Split(flg, ','), ValidNgrams);
  }

  /**
   * `verifyFlags` fails exactly when one of the two checks fails, and a
   * failing language check is the error reported, whatever the ngram flag.
   */
  lemma VerifyFlagsFailsIffEitherFails(language: string, ngram: string)
    ensures VerifyFlags(language, ngram).None? <==>
      VerifyFlagLanguage(language).None? && VerifyFlagNgram(ngram).None?
    ensures VerifyFlagLanguage(language).Some? ==>
      VerifyFlags(language, ngram) == Some(InvalidFlag(VerifyFlagLanguage(language).value))
    ensures VerifyFlagLanguage(language).None? && VerifyFlagNgram(ngram).Some? ==>
      VerifyFlags(language, ngram) == Some(InvalidFlag(VerifyFlagNgram(ngram).value))
  {
  }

  /** Whitelisted selectors on both flags pass `verifyFlags`. */
  lemma VerifyFlagsAcceptsValid(language: string, ngram: string)
    requires AllValid(Split(language, ','), ValidLanguages)
    requires AllValid(Split(ngram, ','), ValidNgrams)
    ensures VerifyFlags(language, ngram) == None
  {
    VerifyFlagLanguageAcceptsValid(language);
    VerifyFlagNgramAcceptsValid(ngram);
  }

  /** The default flag values pass validation: no whitelist entry contains a comma. */
  lemma DefaultFlagsPass()
    ensures VerifyFlags(DefaultLanguage(), DefaultNgram()) == None
  {
    assert FreeOf(ValidLanguages, ',');
    assert FreeOf(ValidNgrams, ',');
    SplitJoin(ValidLanguages, ',');
    SplitJoin(ValidNgrams, ',');
    VerifyFlagsAcceptsValid(DefaultLanguage(), DefaultNgram());
  }

  /** An empty flag passes both checks, although `""` is in neither whitelist. */
  lemma EmptyFlagAccepted()
    ensures "" !in ValidLanguages && "" !in ValidNgrams
    ensures VerifyFlagLanguage("") == None && VerifyFlagNgram("") == None
    ensures VerifyFlags("", "") == None
  {
  }

  /** An empty token hides a later invalid one: `"eng,,xyz"` passes the language check. */
  lemma EmptyTokenHidesLaterInvalid()
    ensures Split("eng,,xyz", ',') == ["eng", "", "xyz"]
    ensures "xyz" !in ValidLanguages
    ensures VerifyFlagLanguage("eng,,xyz") == None
  {
    var tail := "" + [','] + "xyz";
    assert "eng" + [','] + tail == "eng,,xyz";
    SplitAtFirstSep("eng", ',', tail);
    SplitAtFirstSep("", ',', "xyz");
    SplitWithoutSep("xyz", ',');
    var tokens := Split("eng,,xyz", ',');
    assert tokens[0] == ValidLanguages[0];
    FirstInvalidLeftmost(tokens, ValidLanguages, 1);
  }

  // Strict variants: the behaviour the empty-string sentinel prevents, where
  // "nothing invalid" is told apart from "an empty token is invalid".

  /** The leftmost token outside the whitelist, if any. */
  function StrictFirstInvalid(tokens: seq<string>, validFlags: seq<string>): Option<string>
  {
    if tokens == [] then None
    else if tokens[0] !in validFlags then Some(tokens[0])
    else StrictFirstInvalid(tokens[1..], validFlags)
  }

  /** `StrictFirstInvalid` finds nothing exactly when every token is valid, and otherwise the leftmost invalid token. */
  lemma {:induction false} StrictFirstInvalidSpec(tokens: seq<string>, validFlags: seq<string>)
    ensures StrictFirstInvalid(tokens, validFlags).None? <==> AllValid(tokens, validFlags)
    ensures forall k :: LeftmostInvalidAt(tokens, validFlags, k) ==>
      StrictFirstInvalid(tokens, validFlags) == Some(tokens[k])
  {
    if tokens != [] {
      StrictFirstInvalidSpec(tokens[1..], validFlags);
      if tokens[0] in validFlags {
        forall k | LeftmostInvalidAt(tokens, validFlags, k)
          ensures StrictFirstInvalid(tokens, validFlags) == Some(tokens[k])
        {
          assert k != 0;
          assert LeftmostInvalidAt(tokens[1..], validFlags, k - 1);
        }
        if !AllValid(tokens[1..], validFlags) {
          var k :| 0 <= k < |tokens[1..]| && tokens[1..][k] !in validFlags;
          assert tokens[k + 1] !in validFlags;
        }
      }
    }
  }

  /** Both report the same token whenever no token is empty. */
  lemma {:induction false} StrictAgreesWithoutEmptyTokens(tokens: seq<string>, validFlags: seq<string>)
    requires "" !in tokens
    ensures StrictFirstInvalid(tokens, validFlags) ==
      if FirstInvalid(tokens, validFlags) == "" then None else Some(FirstInvalid(tokens, validFlags))
  {
    if tokens != [] {
      StrictAgreesWithoutEmptyTokens(tokens[1..], validFlags);
    }
  }

  /** `verifyFlagLanguage` with the empty token treated as the invalid token it is. */
  function VerifyFlagLanguageStrict(flg: string): Option<FlagError>
  {
    match StrictFirstInvalid(Split(flg, ','), ValidLanguages)
    case Some(t) => Some(InvalidLanguageFlag(t))
    case None => None
  }

  /** `verifyFlagNgram` with the empty token treated as the invalid token it is. */
  function VerifyFlagNgramStrict(flg: string): Option<FlagError>
  {
    match StrictFirstInvalid(Split(flg, ','), ValidNgrams)
    case Some(t) => Some(InvalidNgramFlag(t))
    case None => None
  }

  /** The strict checks accept a flag exactly when every one of its tokens is whitelisted. */
  lemma StrictChecksAcceptExactlyValid(flg: string)
    ensures VerifyFlagLanguageStrict(flg).None? <==> AllValid(Split(flg, ','), ValidLanguages)
    ensures VerifyFlagNgramStrict(flg).None? <==> AllValid(Split(flg, ','), ValidNgrams)
  {
    StrictFirstInvalidSpec(Split(flg, ','), ValidLanguages);
    StrictFirstInvalidSpec(Split(flg, ','), ValidNgrams);
  }

  /** The strict language check rejects `"eng,,xyz"`, naming the empty token. */
  lemma StrictRejectsEmptyToken()
    ensures VerifyFlagLanguageStrict("eng,,xyz") == Some(InvalidLanguageFlag(""))
    ensures VerifyFlagLanguageStrict("") == Some(InvalidLanguageFlag(""))
  {
    EmptyTokenHidesLaterInvalid();
  }
}
