/** The plugin object of plugin_block_name.go: its rule stores, the line
    loop of `Init` that fills them from the rule file, and `Eval`, which
    runs the match stages over a query and sets the plugin state's action
    to Reject on a match. */
module BlockName {
  import opened Wrappers
  import opened Text
  import Clock
  import Radix
  import opened Rules
  import Matching
  import Glob

  /** The actions a plugin can leave in the shared plugin state; this
      plugin only ever sets Reject. */
  datatype PluginsAction =
    | PluginsActionNone
    | PluginsActionForward
    | PluginsActionDrop
    | PluginsActionReject
    | PluginsActionSynth

  /** The part of the per-query plugin state this plugin writes. */
  class PluginsState {
    var action: PluginsAction

    constructor(action: PluginsAction)
      ensures this.action == action
    {
      this.action := action;
    }
  }

  ghost predicate LowerKeys(keys: set<string>)
  {
    forall k :: k in keys ==> |k| > 0 && IsLowercase(k)
  }

  ghost predicate LowerTexts(texts: seq<string>)
  {
    forall k :: 0 <= k < |texts| ==> |texts[k]| > 0 && IsLowercase(texts[k])
  }

  ghost predicate Untimed(t: Radix.Tree<Option<Clock.TimeRange>>)
  {
    forall k :: k in t ==> t[k].None?
  }

  /** The tree holding `keys`, none of them with a time range. */
  function UntimedTree(keys: set<string>): (t: Radix.Tree<Option<Clock.TimeRange>>)
    ensures t.Keys == keys && Untimed(t)
  {
    map k | k in keys :: None
  }

  /** A tree without time ranges is determined by its keys. */
  lemma UntimedByKeys(t: Radix.Tree<Option<Clock.TimeRange>>)
    requires Untimed(t)
    ensures t == UntimedTree(t.Keys)
  {
  }

  /** Two runs of `Init` on the same rule file, as `Init`'s contract gives
      their stores: the second run leaves the trees as the first left them,
      appends the file's substrings and patterns once more, and changes the
      decision for no name. */
  lemma InitTwice(substrings: seq<string>, patterns: seq<string>, fileContents: string, qName: string)
    ensures var rules := RulesOf(Split(fileContents, '\n'));
      var once := Compile(Stores({}, {}, substrings, patterns), rules);
      var twice := Compile(Stores({}, {}, once.substrings, once.patterns), rules);
      twice.prefixKeys == once.prefixKeys && twice.suffixKeys == once.suffixKeys &&
      twice.substrings == once.substrings + TextsOf(rules, Substring) &&
      twice.patterns == once.patterns + TextsOf(rules, Pattern) &&
      Matching.Decide(UntimedTree(twice.prefixKeys), UntimedTree(twice.suffixKeys),
                      twice.substrings, twice.patterns, qName) ==
      Matching.Decide(UntimedTree(once.prefixKeys), UntimedTree(once.suffixKeys),
                      once.substrings, once.patterns, qName)
  {
    var rules := RulesOf(Split(fileContents, '\n'));
    var once := Compile(Stores({}, {}, substrings, patterns), rules);
    Matching.DecideReload(UntimedTree(once.prefixKeys), UntimedTree(once.suffixKeys),
                          substrings, TextsOf(rules, Substring), patterns, TextsOf(rules, Pattern), qName);
  }

  class PluginBlockName {
    var blockedPrefixes: Radix.Tree<Option<Clock.TimeRange>>
    var blockedSuffixes: Radix.Tree<Option<Clock.TimeRange>>
    var blockedSubstrings: seq<string>
    var blockedPatterns: seq<string>
    var timeRanges: map<string, Clock.WeeklyRanges>

    /** Every stored text is what an accepted rule line leaves: non-empty
        and lower-case (suffixes are stored reversed). */
    ghost predicate Valid()
      reads this
    {
      LowerKeys(blockedPrefixes.Keys) && LowerKeys(blockedSuffixes.Keys) &&
      LowerTexts(blockedSubstrings) && LowerTexts(blockedPatterns)
    }

    /** No time range is attached to any tree entry. */
    ghost predicate NoTimeRanges()
      reads this
    {
      Untimed(blockedPrefixes) && Untimed(blockedSuffixes)
    }

    /** A plugin with no rules yet and the named time windows already parsed. */
    constructor(timeRanges: map<string, Clock.WeeklyRanges>)
      ensures Valid() && NoTimeRanges()
      ensures blockedPrefixes == map[] && blockedSuffixes == map[]
      ensures blockedSubstrings == [] && blockedPatterns == []
      ensures this.timeRanges == timeRanges
    {
      blockedPrefixes := Radix.Empty();
      blockedSuffixes := Radix.Empty();
      blockedSubstrings := [];
      blockedPatterns := [];
      this.timeRanges := timeRanges;
    }

    /** The contents of the four stores. */
    function Snapshot(): Stores
      reads this
    {
      Stores(blockedPrefixes.Keys, blockedSuffixes.Keys, blockedSubstrings, blockedPatterns)
    }

    /** The `switch blockType` of the line loop: the rule's text goes to
        exactly one store, and nothing else changes. */
    method AddRule(rule: Rule, timeRange: Option<Clock.TimeRange>)
      requires Valid()
      requires |rule.text| > 0 && IsLowercase(rule.text)
      modifies this
      ensures Valid()
      ensures old(NoTimeRanges()) && timeRange.None? ==> NoTimeRanges()
      ensures timeRanges == old(timeRanges)
      ensures blockedSubstrings == old(blockedSubstrings) + if rule.kind == Substring then [rule.text] else []
      ensures blockedPatterns == old(blockedPatterns) + if rule.kind == Pattern then [rule.text] else []
      ensures Snapshot() == Store(old(Snapshot()), rule)
      ensures blockedPrefixes ==
        if rule.kind == Prefix then Radix.Insert(old(blockedPrefixes), rule.text, timeRange) else old(blockedPrefixes)
      ensures blockedSuffixes ==
        if rule.kind == Suffix then Radix.Insert(old(blockedSuffixes), Reverse(rule.text), timeRange) else old(blockedSuffixes)
    {
      match rule.kind
      case Substring =>
        blockedSubstrings := blockedSubstrings + [rule.text];
      case Pattern =>
        blockedPatterns := blockedPatterns + [rule.text];
      case Prefix =>
        blockedPrefixes := Radix.Insert(blockedPrefixes, rule.text, timeRange);
      case Suffix =>
        ReverseLowercase(rule.text);
        blockedSuffixes := Radix.Insert(blockedSuffixes, Reverse(rule.text), timeRange);
    }

    /** The body of the line loop of `Init`: a blank, comment or refused
        line leaves the stores alone; an accepted rule goes to its store. */
    method AddLine(line: string)
      requires Valid()
      modifies this
      ensures Valid()
      ensures old(NoTimeRanges()) ==> NoTimeRanges()
      ensures timeRanges == old(timeRanges)
      ensures Snapshot() == LoadLine(old(Snapshot()), line)
    {
      match ClassifyLine(line) {
        case Skipped(_) =>
        case Accepted(rule) =>
          var timeRange: Option<Clock.TimeRange> := None;
          if |rule.window| > 0 {
            // Go's `Init` declares a second `timeRange` here with `:=`,
            // local to this block, so the one inserted below stays nil.
            var timeRange := if rule.window in timeRanges then Some(timeRanges[rule.window]) else None;
          }
          AddRule(rule, timeRange);
      }
    }

    /** The rule-file loop of `Init`, given the file's contents. The trees
        are rebuilt from the file's prefix and suffix rules; its substring
        and pattern rules are appended, in file order, to those already
        held. No tree entry carries a time range. */
    method Init(fileContents: string)
      requires Valid()
      modifies this
      ensures Valid() && NoTimeRanges()
      ensures timeRanges == old(timeRanges)
      ensures blockedPrefixes == UntimedTree(Snapshot().prefixKeys)
      ensures blockedSuffixes == UntimedTree(Snapshot().suffixKeys)
      ensures Snapshot() == Compile(Stores({}, {}, old(blockedSubstrings), old(blockedPatterns)),
                                    RulesOf(Split(fileContents, '\n')))
    {
      blockedPrefixes := Radix.Empty();
      blockedSuffixes := Radix.Empty();
      ghost var start := Snapshot();
      assert start == Stores({}, {}, old(blockedSubstrings), old(blockedPatterns));
      var lines := Split(fileContents, '\n');
      var lineNo := 0;
      assert lines[..0] == [];
      while lineNo < |lines|
        invariant 0 <= lineNo <= |lines|
        invariant Valid() && NoTimeRanges()
        invariant timeRanges == old(timeRanges)
        invariant Snapshot() == Load(start, lines[..lineNo])
      {
        LoadStep(start, lines, lineNo);
        AddLine(lines[lineNo]);
        lineNo := lineNo + 1;
      }
      LoadAll(start, lines);
      UntimedByKeys(blockedPrefixes);
      UntimedByKeys(blockedSuffixes);
    }

    /** The match stages of `Eval` for a lowercased name: the suffix tree
        (with the one retry on the parent domain), the prefix tree, then
        the substrings and the patterns in order; a later stage runs only
        when the earlier ones did not reject, and the first match gives the
        reason. */
    method Match(qName: string) returns (reject: bool, reason: string)
      ensures var decision := Matching.Decide(blockedPrefixes, blockedSuffixes, blockedSubstrings, blockedPatterns, qName);
        (reject <==> decision.Some?) && reason == if reject then decision.value else ""
    {
      reject, reason := MatchSuffix(qName);
      if !reject {
        reject, reason := MatchPrefix(qName);
      }
      if !reject {
        reject, reason := MatchSubstring(qName);
      }
      if !reject {
        reject, reason := MatchPattern(qName);
      }
    }

    /** The suffix stage as the plugin runs it, step by step: the longest
        reversed suffix that starts the reversed name, accepted on a label
        boundary, else looked up once more on the parent domain. The
        reference is `Matching.SuffixStage`, whose properties are proved in
        `Matching`; the contract ties this method to it. */
    method MatchSuffix(qName: string) returns (reject: bool, reason: string)
      ensures var decision := Matching.SuffixStage(blockedSuffixes, qName);
        (reject <==> decision.Some?) && reason == if reject then decision.value else ""
    {
      var revQname := Reverse(qName);
      reject, reason := false, "";
      var found := Radix.LongestPrefix(blockedSuffixes, revQname);
      if found.Some? {
        var m := found.value;
        if |m| == |qName| || revQname[|m|] == '.' {
          reject, reason := true, "*." + Reverse(m);
        } else if |m| < |revQname| && |revQname| > 0 {
          var i := LastIndexOf(revQname, '.');
          if i > 0 {
            var pName := revQname[..i];
            var foundParent := Radix.LongestPrefix(blockedSuffixes, pName);
            if foundParent.Some? {
              var m' := foundParent.value;
              if |m'| == |pName| || pName[|m'|] == '.' {
                reject, reason := true, "*." + Reverse(m');
              }
            }
          }
        }
      }
    }

    /** The prefix stage as the plugin runs it: the longest stored prefix
        of the name. The reference is `Matching.PrefixStage`, whose
        properties are proved in `Matching`; the contract ties this method
        to it. */
    method MatchPrefix(qName: string) returns (reject: bool, reason: string)
      ensures var decision := Matching.PrefixStage(blockedPrefixes, qName);
        (reject <==> decision.Some?) && reason == if reject then decision.value else ""
    {
      reject, reason := false, "";
      var found := Radix.LongestPrefix(blockedPrefixes, qName);
      if found.Some? {
        reject, reason := true, found.value + "*";
      }
    }

    /** The substring stage: a scan in order that stops at the first stored
        substring the name contains. */
    method MatchSubstring(qName: string) returns (reject: bool, reason: string)
      ensures var decision := Matching.SubstringStage(blockedSubstrings, qName);
        (reject <==> decision.Some?) && reason == if reject then decision.value else ""
    {
      reject, reason := false, "";
      var k := 0;
      while k < |blockedSubstrings|
        invariant 0 <= k <= |blockedSubstrings|
        invariant !reject && reason == ""
        invariant forall j :: 0 <= j < k ==> !Contains(qName, blockedSubstrings[j])
      {
        if Contains(qName, blockedSubstrings[k]) {
          assert Matching.FirstContainedFrom(blockedSubstrings, qName, 0) == Some(k);
          reject, reason := true, "*" + blockedSubstrings[k] + "*";
          break;
        }
        k := k + 1;
      }
    }

    /** The pattern stage: a scan in order that stops at the first stored
        pattern the whole name matches. */
    method MatchPattern(qName: string) returns (reject: bool, reason: string)
      ensures var decision := Matching.PatternStage(blockedPatterns, qName);
        (reject <==> decision.Some?) && reason == if reject then decision.value else ""
    {
      reject, reason := false, "";
      var k := 0;
      while k < |blockedPatterns|
        invariant 0 <= k <= |blockedPatterns|
        invariant !reject && reason == ""
        invariant forall j :: 0 <= j < k ==> !Glob.Match(blockedPatterns[j], qName)
      {
        if Glob.Match(blockedPatterns[k], qName) {
          assert Matching.FirstMatchingFrom(blockedPatterns, qName, 0) == Some(k);
          reject, reason := true, blockedPatterns[k];
          break;
        }
        k := k + 1;
      }
    }

    /** `Eval` on a message's question names (trailing dot already removed):
        the action becomes Reject exactly when the rules reject the single,
        lowercased name; otherwise it is left as it was. The reason goes
        only to the audit log. */
    method Eval(pluginsState: PluginsState, questions: seq<string>)
      modifies pluginsState
      ensures pluginsState.action ==
        if Matching.Verdict(blockedPrefixes, blockedSuffixes, blockedSubstrings, blockedPatterns, questions).Some?
        then PluginsActionReject else old(pluginsState.action)
    {
      if |questions| != 1 {
        return;
      }
      var qName := ToLower(questions[0]);
      if |qName| < 2 {
        return;
      }
      var reject, reason := Match(qName);
      if reject {
        pluginsState.action := PluginsActionReject;
      }
    }
  }
}
