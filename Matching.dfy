/** What `Eval` in plugin_block_name.go decides for a query name, stage by
    stage, as functions of the compiled rules: suffix rules (looked up in
    the tree of reversed suffixes, with one retry on the parent domain),
    then prefix rules, then substrings, then glob patterns. Each stage
    yields the reason string of its match; the first stage that matches
    decides. */
module Matching {
  import opened Wrappers
  import opened Text
  import Radix
  import Glob

  /** The suffix stage. `suffixes` holds each suffix rule reversed; the
      longest key that starts the reversed name must end on a label
      boundary of it, and if it does not, the lookup is made once more on
      the reversed name cut before its last '.', i.e. on the parent domain
      of the name. */
  function SuffixStage<V>(suffixes: Radix.Tree<V>, qName: string): Option<string>
  {
    var revQname := Reverse(qName);
    match Radix.LongestPrefix(suffixes, revQname)
    case None => None
    case Some(m) =>
      if |m| == |qName| || revQname[|m|] == '.' then Some("*." + Reverse(m))
      else if |m| < |revQname| && |revQname| > 0 then ParentRetry(suffixes, revQname)
      else None
  }

  /** The retry: the reversed name cut before its last '.', which is the
      reversed parent domain, looked up with the same boundary rule. */
  function ParentRetry<V>(suffixes: Radix.Tree<V>, revQname: string): Option<string>
  {
    var i := LastIndexOf(revQname, '.');
    if i > 0 then
      var pName := revQname[..i];
      match Radix.LongestPrefix(suffixes, pName)
      case None => None
      case Some(m) =>
        if |m| == |pName| || pName[|m|] == '.' then Some("*." + Reverse(m)) else None
    else None
  }

  /** The prefix stage: the longest stored prefix of the name, reported as
      `p + "*"`. */
  function PrefixStage<V>(prefixes: Radix.Tree<V>, qName: string): (r: Option<string>)
    ensures r.Some? <==> exists p :: p in prefixes && p <= qName
    ensures r.Some? ==> exists p :: (p in prefixes && p <= qName && r.value == p + "*" &&
                                     forall k :: k in prefixes && k <= qName ==> |k| <= |p|)
  {
    match Radix.LongestPrefix(prefixes, qName)
    case None => None
    case Some(p) => Some(p + "*")
  }

  /** The first stored substring, from position `from` on, that occurs in the name. */
  function FirstContainedFrom(substrings: seq<string>, qName: string, from: nat): (r: Option<nat>)
    requires from <= |substrings|
    ensures r.Some? ==> (from <= r.value < |substrings| && Contains(qName, substrings[r.value]) &&
                         forall j :: from <= j < r.value ==> !Contains(qName, substrings[j]))
    ensures r.None? ==> forall j :: from <= j < |substrings| ==> !Contains(qName, substrings[j])
    decreases |substrings| - from
  {
    if from == |substrings| then None
    else if Contains(qName, substrings[from]) then Some(from)
    else FirstContainedFrom(substrings, qName, from + 1)
  }

  /** The substring stage: the first stored substring, in file order, that
      occurs in the name, reported as `"*" + sub + "*"`. */
  function SubstringStage(substrings: seq<string>, qName: string): Option<string>
  {
    match FirstContainedFrom(substrings, qName, 0)
    case None => None
    case Some(k) => Some("*" + substrings[k] + "*")
  }

  /** The first stored pattern, from position `from` on, that the name matches. */
  function FirstMatchingFrom(patterns: seq<string>, qName: string, from: nat): (r: Option<nat>)
    requires from <= |patterns|
    ensures r.Some? ==> (from <= r.value < |patterns| && Glob.Match(patterns[r.value], qName) &&
                         forall j :: from <= j < r.value ==> !Glob.Match(patterns[j], qName))
    ensures r.None? ==> forall j :: from <= j < |patterns| ==> !Glob.Match(patterns[j], qName)
    decreases |patterns| - from
  {
    if from == |patterns| then None
    else if Glob.Match(patterns[from], qName) then Some(from)
    else FirstMatchingFrom(patterns, qName, from + 1)
  }

  /** The pattern stage: the first stored pattern, in file order, that the
      whole name matches, reported as the pattern itself. */
  function PatternStage(patterns: seq<string>, qName: string): Option<string>
  {
    match FirstMatchingFrom(patterns, qName, 0)
    case None => None
    case Some(k) => Some(patterns[k])
  }

  /** The reason `Eval` rejects a (lowercased, at least two characters long)
      name for, or None when no stage matches. */
  function Decide<V>(prefixes: Radix.Tree<V>, suffixes: Radix.Tree<V>,
                     substrings: seq<string>, patterns: seq<string>, qName: string): Option<string>
  {
    var bySuffix := SuffixStage(suffixes, qName);
    if bySuffix.Some? then bySuffix
    else
      var byPrefix := PrefixStage(prefixes, qName);
      if byPrefix.Some? then byPrefix
      else
        var bySubstring := SubstringStage(substrings, qName);
        if bySubstring.Some? then bySubstring
        else PatternStage(patterns, qName)
  }

  /** The whole of `Eval`'s decision for a message's question list: no
      decision unless there is exactly one question whose lowercased name
      is at least two characters long. */
  function Verdict<V>(prefixes: Radix.Tree<V>, suffixes: Radix.Tree<V>,
                      substrings: seq<string>, patterns: seq<string>, questions: seq<string>): Option<string>
  {
    if |questions| != 1 then None
    else
      var qName := ToLower(questions[0]);
      if |qName| < 2 then None else Decide(prefixes, suffixes, substrings, patterns, qName)
  }

  // ---------------------------------------------------------------------
  // The suffix stage

  lemma ReverseAppendDot(m: string)
    ensures Reverse(m + ".") == "." + Reverse(m)
  {
  }

  /** `m` followed by '.' starts the reversed name exactly when the name
      ends with '.' followed by the reverse of `m`. */
  lemma BoundaryPrefix(m: string, qName: string)
    ensures (m + ".") <= Reverse(qName) <==> EndsWith(qName, "." + Reverse(m))
  {
    PrefixOfReverse(m + ".", qName);
    ReverseAppendDot(m);
  }

  /** A key found by the stage ends the reversed name or is followed in it
      by '.', so its rule is the name itself or one of its parent domains. */
  lemma AtBoundary(m: string, s: string, qName: string)
    requires m <= s && s <= Reverse(qName)
    requires |m| == |qName| || (|m| < |s| && s[|m|] == '.')
    ensures qName == Reverse(m) || EndsWith(qName, "." + Reverse(m))
  {
    var rev := Reverse(qName);
    if |m| == |qName| {
      assert m == rev;
      ReverseInvolutive(qName);
    } else {
      assert rev[..|m| + 1] == m + ".";
      BoundaryPrefix(m, qName);
    }
  }

  /** Suffix-stage soundness: a rejection with reason `"*." + s` means `s`
      is a stored suffix rule (its reverse is a key) and the name is `s`
      or ends with `"." + s`. */
  lemma SuffixStageSound<V>(suffixes: Radix.Tree<V>, qName: string)
    requires SuffixStage(suffixes, qName).Some?
    ensures var reason := SuffixStage(suffixes, qName).value;
      |reason| >= 2 && reason[..2] == "*." &&
      Reverse(reason[2..]) in suffixes &&
      (qName == reason[2..] || EndsWith(qName, "." + reason[2..]))
  {
    var rev := Reverse(qName);
    var reason := SuffixStage(suffixes, qName).value;
    var m := Radix.LongestPrefix(suffixes, rev).value;
    if |m| == |qName| || rev[|m|] == '.' {
      AtBoundary(m, rev, qName);
      assert reason[2..] == Reverse(m);
      ReverseInvolutive(m);
    } else {
      var i := LastIndexOf(rev, '.');
      var pName := rev[..i];
      var m' := Radix.LongestPrefix(suffixes, pName).value;
      assert m' <= rev;
      if |m'| < |pName| {
        assert rev[|m'|] == pName[|m'|];
      }
      AtBoundary(m', rev, qName);
      assert reason[2..] == Reverse(m');
      ReverseInvolutive(m');
    }
  }

  /** A name that is itself a stored suffix rule is rejected by it. */
  lemma SuffixStageExact<V>(suffixes: Radix.Tree<V>, qName: string)
    requires Reverse(qName) in suffixes
    ensures SuffixStage(suffixes, qName) == Some("*." + qName)
  {
    var rev := Reverse(qName);
    var m := Radix.LongestPrefix(suffixes, rev).value;
    assert |m| == |rev|;
    assert m == rev;
    ReverseInvolutive(qName);
  }

  lemma NoDotInReverse(s: string)
    requires '.' !in s
    ensures '.' !in Reverse(s)
  {
    forall k | 0 <= k < |s| ensures Reverse(s)[k] != '.' {
      assert Reverse(s)[k] == s[|s| - 1 - k];
    }
  }

  /** The reverse of `first.parent` is the reversed parent, a '.', then the reversed first label. */
  lemma ReverseDotted(first: string, parent: string)
    ensures Reverse(first + "." + parent) == Reverse(parent) + "." + Reverse(first)
  {
    ReverseConcat(first + ".", parent);
    ReverseConcat(first, ".");
    assert Reverse(".") == ".";
  }

  lemma NoDotAfter(a: string, b: string)
    requires '.' !in b
    ensures forall k :: |a| < k < |a + "." + b| ==> (a + "." + b)[k] != '.'
  {
    var s := a + "." + b;
    forall k | |a| < k < |s| ensures s[k] != '.' {
      var j := k - |a| - 1;
      assert s[k] == b[j];
      assert b[j] in b;
    }
  }

  /** The last '.' of `a.b` is the one after `a` when `b` has none. */
  lemma LastDotAfter(a: string, b: string)
    requires '.' !in b
    ensures LastIndexOf(a + "." + b, '.') == |a|
  {
    var s := a + "." + b;
    assert s[|a|] == '.';
    NoDotAfter(a, b);
    var r := LastIndexOf(s, '.');
    assert r >= |a|;
  }

  /** A name whose parent domain (all after its first '.') is a stored
      suffix rule is rejected by the suffix stage: either the longest key
      already ends on a boundary, or the retry on the parent finds it. */
  lemma SuffixStageParent<V>(suffixes: Radix.Tree<V>, first: string, parent: string)
    requires '.' !in first && parent != []
    requires Reverse(parent) in suffixes
    ensures SuffixStage(suffixes, first + "." + parent).Some?
  {
    var qName := first + "." + parent;
    var rev := Reverse(qName);
    var rp, rf := Reverse(parent), Reverse(first);
    ReverseDotted(first, parent);
    assert rp <= rev;
    var m := Radix.LongestPrefix(suffixes, rev).value;
    if !(|m| == |qName| || rev[|m|] == '.') {
      NoDotInReverse(first);
      LastDotAfter(rp, rf);
      var pName := rev[..|rp|];
      assert pName == rp;
      var m' := Radix.LongestPrefix(suffixes, pName).value;
      assert |m'| == |pName|;
      assert ParentRetry(suffixes, rev).Some?;
    }
  }

  /** With a single key, the retry finds nothing when the key, though a
      prefix of the reversed name, does not end on a label boundary of it. */
  lemma ParentRetrySingle<V>(rs: string, v: V, rev: string)
    requires rs <= rev && |rs| < |rev| && rev[|rs|] != '.'
    ensures ParentRetry(map[rs := v], rev) == None
  {
    var i := LastIndexOf(rev, '.');
    if i > 0 {
      var pName := rev[..i];
      Radix.LongestPrefixSingle(rs, v, pName);
      if rs <= pName {
        assert |rs| != |pName|;
        assert pName[|rs|] == rev[|rs|];
      }
    }
  }

  /** With a single suffix rule `s`, the suffix stage rejects exactly the
      name `s` and the names ending in `"." + s`: `evil.com` blocks
      `sub.evil.com` but not `notevil.com`. */
  lemma SuffixStageSingleRule<V>(s: string, v: V, qName: string)
    ensures SuffixStage(map[Reverse(s) := v], qName) ==
      if qName == s || EndsWith(qName, "." + s) then Some("*." + s) else None
  {
    var rev := Reverse(qName);
    var rs := Reverse(s);
    ReverseInvolutive(s);
    Radix.LongestPrefixSingle(rs, v, rev);
    BoundaryPrefix(rs, qName);
    var named := qName == s || EndsWith(qName, "." + s);
    if rs <= rev {
      if |rs| == |qName| || rev[|rs|] == '.' {
        AtBoundary(rs, rev, qName);
      } else {
        ParentRetrySingle(rs, v, rev);
        assert !named;
      }
    } else {
      assert !named;
    }
  }

  /** The two suffix rules of the example below, reversed. */
  const RetryExampleKeys: Radix.Tree<()> := map["moc" := (), "moc.live.b" := ()]

  lemma RetryExampleLookup(s: string)
    requires s == "moc.live.ba.x" || s == "moc.live.ba"
    ensures Radix.LongestPrefix(RetryExampleKeys, s) == Some("moc.live.b")
  {
    var m := "moc.live.b";
    assert m == s[..10];
    assert "moc" == s[..3];
    var r := Radix.LongestPrefix(RetryExampleKeys, s);
    assert m in RetryExampleKeys;
    assert r.value == "moc" || r.value == m;
  }

  lemma RetryExampleParent()
    ensures ParentRetry(RetryExampleKeys, "moc.live.ba.x") == None
  {
    var rev := "moc.live.ba.x";
    assert LastIndexOf(rev, '.') == 11 by {
      assert rev[12] != '.' && rev[11] == '.';
    }
    var pName := rev[..11];
    assert pName == "moc.live.ba";
    RetryExampleLookup(pName);
    assert pName[10] == 'a';
  }

  lemma RetryExampleEndsWith(qName: string)
    requires qName == "x.ab.evil.com"
    ensures EndsWith(qName, ".com")
  {
    assert qName[9..] == ".com";
  }

  lemma RetryExampleReversed(top: string, rule: string, qName: string)
    requires top == "com" && rule == "b.evil.com" && qName == "x.ab.evil.com"
    ensures map[Reverse(top) := (), Reverse(rule) := ()] == RetryExampleKeys
    ensures Reverse(qName) == "moc.live.ba.x"
  {
    ReversedLiteral(top, "moc");
    ReversedLiteral(rule, "moc.live.b");
    ReversedLiteral(qName, "moc.live.ba.x");
  }

  /** The suffix stage finds nothing when the longest key stops inside a
      label and the retry on the parent domain finds nothing either. */
  lemma SuffixStageNoBoundary<V>(suffixes: Radix.Tree<V>, qName: string, rev: string, m: string)
    requires rev == Reverse(qName)
    requires Radix.LongestPrefix(suffixes, rev) == Some(m)
    requires |m| < |rev| && rev[|m|] != '.'
    requires ParentRetry(suffixes, rev) == None
    ensures SuffixStage(suffixes, qName) == None
  {
  }

  lemma RetryExampleStage(qName: string, rev: string)
    requires rev == Reverse(qName) && rev == "moc.live.ba.x"
    ensures SuffixStage(RetryExampleKeys, qName) == None
  {
    RetryExampleLookup(rev);
    RetryExampleParent();
    var m := "moc.live.b";
    assert |m| < |rev| && rev[|m|] != '.';
    SuffixStageNoBoundary(RetryExampleKeys, qName, rev, m);
  }

  /** The retry is made once, on the parent domain only. With suffix rules
      `com` and `b.evil.com`, the name `x.ab.evil.com` ends with `.com` and
      yet is not rejected: the longest key, `b.evil.com` reversed, stops
      inside the label `ab`, and so it does again in the parent domain
      `ab.evil.com`, where the retry looks. */
  lemma SuffixStageRetriesOnce(top: string, rule: string, qName: string)
    requires top == "com" && rule == "b.evil.com" && qName == "x.ab.evil.com"
    ensures EndsWith(qName, "." + top)
    ensures SuffixStage(map[Reverse(top) := (), Reverse(rule) := ()], qName) == None
  {
    RetryExampleEndsWith(qName);
    RetryExampleReversed(top, rule, qName);
    RetryExampleStage(qName, Reverse(qName));
  }

  // ---------------------------------------------------------------------
  // The decision as a whole

  /** What a rejection reason can be, given the stored rules. */
  ghost predicate Explains<V>(prefixes: Radix.Tree<V>, suffixes: Radix.Tree<V>,
                        substrings: seq<string>, patterns: seq<string>, qName: string, reason: string)
  {
    (exists s :: Reverse(s) in suffixes && reason == "*." + s && (qName == s || EndsWith(qName, "." + s))) ||
    (exists p :: p in prefixes && p <= qName && reason == p + "*") ||
    (exists k :: 0 <= k < |substrings| && Contains(qName, substrings[k]) && reason == "*" + substrings[k] + "*") ||
    (exists k :: 0 <= k < |patterns| && Glob.Match(patterns[k], qName) && reason == patterns[k])
  }

  /** Every rejection is explained by a stored rule of one of the four kinds. */
  lemma DecideSound<V>(prefixes: Radix.Tree<V>, suffixes: Radix.Tree<V>,
                       substrings: seq<string>, patterns: seq<string>, qName: string)
    requires Decide(prefixes, suffixes, substrings, patterns, qName).Some?
    ensures Explains(prefixes, suffixes, substrings, patterns, qName,
                     Decide(prefixes, suffixes, substrings, patterns, qName).value)
  {
    var reason := Decide(prefixes, suffixes, substrings, patterns, qName).value;
    if SuffixStage(suffixes, qName).Some? {
      SuffixStageSound(suffixes, qName);
      var s := reason[2..];
      assert reason == "*." + s;
    } else if PrefixStage(prefixes, qName).Some? {
    } else if SubstringStage(substrings, qName).Some? {
      var k := FirstContainedFrom(substrings, qName, 0).value;
      assert Contains(qName, substrings[k]);
    } else {
      var k := FirstMatchingFrom(patterns, qName, 0).value;
      assert Glob.Match(patterns[k], qName);
    }
  }

  /** A name is rejected whenever it is itself a suffix rule, or has a
      stored prefix, or contains a stored substring, or matches a stored
      pattern. */
  lemma DecideComplete<V>(prefixes: Radix.Tree<V>, suffixes: Radix.Tree<V>,
                          substrings: seq<string>, patterns: seq<string>, qName: string)
    requires Reverse(qName) in suffixes ||
             (exists p :: p in prefixes && p <= qName) ||
             (exists k :: 0 <= k < |substrings| && Contains(qName, substrings[k])) ||
             (exists k :: 0 <= k < |patterns| && Glob.Match(patterns[k], qName))
    ensures Decide(prefixes, suffixes, substrings, patterns, qName).Some?
  {
    if Reverse(qName) in suffixes {
      SuffixStageExact(suffixes, qName);
    }
  }

  /** Nothing rejects a name exactly when the suffix stage misses and no
      prefix, substring or pattern rule applies to it. */
  lemma DecideNone<V>(prefixes: Radix.Tree<V>, suffixes: Radix.Tree<V>,
                      substrings: seq<string>, patterns: seq<string>, qName: string)
    ensures Decide(prefixes, suffixes, substrings, patterns, qName).None? <==>
      SuffixStage(suffixes, qName).None? &&
      (forall p :: p in prefixes ==> !(p <= qName)) &&
      (forall k :: 0 <= k < |substrings| ==> !Contains(qName, substrings[k])) &&
      (forall k :: 0 <= k < |patterns| ==> !Glob.Match(patterns[k], qName))
  {
  }

  /** Precedence: a name that is itself a suffix rule is reported with the
      suffix reason, whatever prefix, substring and pattern rules exist. */
  lemma SuffixTakesPrecedence<V>(prefixes: Radix.Tree<V>, suffixes: Radix.Tree<V>,
                                 substrings: seq<string>, patterns: seq<string>, qName: string)
    requires Reverse(qName) in suffixes
    ensures Decide(prefixes, suffixes, substrings, patterns, qName) == Some("*." + qName)
  {
    SuffixStageExact(suffixes, qName);
  }

  /** Precedence: when the suffix stage misses, a stored prefix decides,
      whatever substring and pattern rules exist. */
  lemma PrefixBeforeSubstringAndPattern<V>(prefixes: Radix.Tree<V>, suffixes: Radix.Tree<V>,
                                           substrings: seq<string>, patterns: seq<string>, qName: string, p: string)
    requires SuffixStage(suffixes, qName).None?
    requires p in prefixes && p <= qName
    ensures Decide(prefixes, suffixes, substrings, patterns, qName) == PrefixStage(prefixes, qName)
    ensures exists longest :: (longest in prefixes && longest <= qName && |longest| >= |p| &&
                               Decide(prefixes, suffixes, substrings, patterns, qName) == Some(longest + "*"))
  {
  }

  // ---------------------------------------------------------------------
  // Compiling the same rules again

  lemma {:induction false} FirstContainedRepeat(a: seq<string>, b: seq<string>, qName: string, from: nat)
    requires from <= |a + b|
    requires forall j :: |a| <= j < from ==> !Contains(qName, (a + b)[j])
    ensures FirstContainedFrom(a + b + b, qName, from) == FirstContainedFrom(a + b, qName, from)
    decreases |a + b| - from
  {
    var ab, abb := a + b, a + b + b;
    assert forall j :: 0 <= j < |ab| ==> abb[j] == ab[j];
    if from < |ab| {
      if !Contains(qName, ab[from]) {
        FirstContainedRepeat(a, b, qName, from + 1);
      }
    } else {
      forall j | |ab| <= j < |abb| ensures !Contains(qName, abb[j]) {
        assert abb[j] == ab[j - |b|];
      }
    }
  }

  /** The substrings loaded from one rule file, appended a second time,
      change no substring-stage result. */
  lemma SubstringStageRepeat(a: seq<string>, b: seq<string>, qName: string)
    ensures SubstringStage(a + b + b, qName) == SubstringStage(a + b, qName)
  {
    FirstContainedRepeat(a, b, qName, 0);
    var r := FirstContainedFrom(a + b, qName, 0);
    if r.Some? {
      assert (a + b + b)[r.value] == (a + b)[r.value];
    }
  }

  lemma {:induction false} FirstMatchingRepeat(a: seq<string>, b: seq<string>, qName: string, from: nat)
    requires from <= |a + b|
    requires forall j :: |a| <= j < from ==> !Glob.Match((a + b)[j], qName)
    ensures FirstMatchingFrom(a + b + b, qName, from) == FirstMatchingFrom(a + b, qName, from)
    decreases |a + b| - from
  {
    var ab, abb := a + b, a + b + b;
    assert forall j :: 0 <= j < |ab| ==> abb[j] == ab[j];
    if from < |ab| {
      if !Glob.Match(ab[from], qName) {
        FirstMatchingRepeat(a, b, qName, from + 1);
      }
    } else {
      forall j | |ab| <= j < |abb| ensures !Glob.Match(abb[j], qName) {
        assert abb[j] == ab[j - |b|];
      }
    }
  }

  /** The patterns loaded from one rule file, appended a second time,
      change no pattern-stage result. */
  lemma PatternStageRepeat(a: seq<string>, b: seq<string>, qName: string)
    ensures PatternStage(a + b + b, qName) == PatternStage(a + b, qName)
  {
    FirstMatchingRepeat(a, b, qName, 0);
    var r := FirstMatchingFrom(a + b, qName, 0);
    if r.Some? {
      assert (a + b + b)[r.value] == (a + b)[r.value];
    }
  }

  /** Loading the same rule file twice gives the same decision for every
      name: the trees hold the same keys, and the repeated substrings and
      patterns come after copies that already decided. */
  lemma DecideReload<V>(prefixes: Radix.Tree<V>, suffixes: Radix.Tree<V>,
                        substrings: seq<string>, moreSubstrings: seq<string>,
                        patterns: seq<string>, morePatterns: seq<string>, qName: string)
    ensures Decide(prefixes, suffixes, substrings + moreSubstrings + moreSubstrings,
                   patterns + morePatterns + morePatterns, qName) ==
            Decide(prefixes, suffixes, substrings + moreSubstrings, patterns + morePatterns, qName)
  {
    SubstringStageRepeat(substrings, moreSubstrings, qName);
    PatternStageRepeat(patterns, morePatterns, qName);
  }

  /** A message without exactly one question is never rejected, nor is a
      name shorter than two characters. */
  lemma MalformedNeverRejected<V>(prefixes: Radix.Tree<V>, suffixes: Radix.Tree<V>,
                                  substrings: seq<string>, patterns: seq<string>, questions: seq<string>)
    requires |questions| != 1 || |questions[0]| < 2
    ensures Verdict(prefixes, suffixes, substrings, patterns, questions).None?
  {
  }
}
