/** The rule compiler's per-line logic (the body of the line loop in
    `Init`, plugin_block_name.go): a line of the rule file is trimmed,
    skipped when blank or a comment, split at '@' into a match text and a
    time-window name, classified as Pattern, Substring, Prefix or Suffix,
    stripped of its markers and lowercased. */
module Rules {
  import opened Wrappers
  import opened Text
  import Glob

  datatype Kind = Prefix | Suffix | Substring | Pattern

  /** A compiled rule: its kind, its stored text and the name written after
      '@' (empty when there is none). */
  datatype Rule = Rule(kind: Kind, text: string, window: string)

  /** Why a line adds no rule. */
  datatype SkipReason =
    | CommentOrBlank  // skipped silently
    | UnexpectedAt    // "Unexpected @ character"
    | SyntaxError     // too short for its kind, or a malformed pattern
    | EmptyRule       // nothing left once the markers are stripped

  datatype LineResult = Skipped(reason: SkipReason) | Accepted(rule: Rule)

  /** The character at `i` makes `s` a glob pattern: a `?` or `[`
      anywhere, or a `*` that is neither the first nor the last character. */
  predicate GlobMarkerAt(s: string, i: int)
    requires 0 <= i < |s|
  {
    s[i] == '?' || s[i] == '[' || (s[i] == '*' && i != 0 && i != |s| - 1)
  }

  function GlobMarkerFrom(s: string, i: nat): (r: bool)
    requires i <= |s|
    ensures r <==> exists j :: i <= j < |s| && GlobMarkerAt(s, j)
    decreases |s| - i
  {
    if i == |s| then false
    else if GlobMarkerAt(s, i) then true
    else GlobMarkerFrom(s, i + 1)
  }

  /** `isGlobCandidate`: the scan stops at the first glob marker. */
  function IsGlobCandidate(s: string): (r: bool)
    ensures r <==> exists i :: 0 <= i < |s| && GlobMarkerAt(s, i)
  {
    GlobMarkerFrom(s, 0)
  }

  /** `strings.TrimPrefix(s, ".")`: one leading dot is dropped, and a text
      without one is kept as it is. */
  function TrimDot(s: string): (r: string)
    ensures "." <= s ==> s == "." + r
    ensures !("." <= s) ==> r == s
  {
    if |s| > 0 && s[0] == '.' then s[1..] else s
  }

  /** The kind of a match text and the text with its markers stripped,
      before the emptiness check; None when the text is too short for its
      kind or is a malformed pattern. */
  function Strip(line: string): Option<(Kind, string)>
  {
    var leadingStar := |line| > 0 && line[0] == '*';
    var trailingStar := |line| > 0 && line[|line| - 1] == '*';
    if IsGlobCandidate(line) then
      if |line| < 2 || !Glob.Valid(line) then None else Some((Pattern, line))
    else if leadingStar && trailingStar then
      if |line| < 3 then None else Some((Substring, line[1..|line| - 1]))
    else if trailingStar then
      if |line| < 2 then None else Some((Prefix, line[..|line| - 1]))
    else
      Some((Suffix, TrimDot(if leadingStar then line[1..] else line)))
  }

  /** A match text with its window name, classified. */
  function ClassifyText(line: string, window: string): (r: LineResult)
    ensures r.Accepted? ==> |r.rule.text| > 0 && IsLowercase(r.rule.text) && r.rule.window == window
    ensures r.Skipped? ==> r.reason == SyntaxError || r.reason == EmptyRule
  {
    match Strip(line)
    case None => Skipped(SyntaxError)
    case Some((kind, text)) =>
      if |text| == 0 then Skipped(EmptyRule) else Accepted(Rule(kind, ToLower(text), window))
  }

  /** One line of the rule file, as the loop body in `Init` treats it.
      Every accepted rule has a non-empty, lower-case text. */
  function ClassifyLine(raw: string): (r: LineResult)
    ensures r.Accepted? ==> |r.rule.text| > 0 && IsLowercase(r.rule.text)
  {
    var line := TrimSpace(raw);
    if |line| == 0 || line[0] == '#' then Skipped(CommentOrBlank)
    else
      var parts := Split(line, '@');
      if |parts| > 2 then Skipped(UnexpectedAt)
      else if |parts| == 2 then ClassifyText(TrimSpace(parts[0]), TrimSpace(parts[1]))
      else ClassifyText(line, "")
  }

  /** The rules the lines compile to, in file order. */
  function RulesOf(lines: seq<string>): seq<Rule>
  {
    if lines == [] then []
    else
      var last := ClassifyLine(lines[|lines| - 1]);
      RulesOf(lines[..|lines| - 1]) + if last.Accepted? then [last.rule] else []
  }

  /** The texts of the rules of one kind, in order. */
  function TextsOf(rules: seq<Rule>, kind: Kind): (texts: seq<string>)
    ensures |texts| <= |rules|
  {
    if rules == [] then []
    else
      var last := rules[|rules| - 1];
      TextsOf(rules[..|rules| - 1], kind) + if last.kind == kind then [last.text] else []
  }

  /** A text is among those of a kind exactly when some rule of that kind has it. */
  lemma {:induction false} TextsOfMembers(rules: seq<Rule>, kind: Kind)
    ensures forall t :: t in TextsOf(rules, kind) <==>
      exists k :: 0 <= k < |rules| && rules[k].kind == kind && rules[k].text == t
  {
    if rules != [] {
      var init := rules[..|rules| - 1];
      TextsOfMembers(init, kind);
      assert forall k :: 0 <= k < |init| ==> init[k] == rules[k];
    }
  }

  /** Rule texts of one kind as a set, the key set of the prefix tree. */
  function KeySet(texts: seq<string>): set<string>
  {
    if texts == [] then {} else KeySet(texts[..|texts| - 1]) + {texts[|texts| - 1]}
  }

  /** The texts reversed, as a set: the key set of the suffix tree. */
  function ReversedKeySet(texts: seq<string>): set<string>
  {
    if texts == [] then {} else ReversedKeySet(texts[..|texts| - 1]) + {Reverse(texts[|texts| - 1])}
  }

  lemma {:induction false} KeySetMembers(texts: seq<string>)
    ensures forall t :: t in KeySet(texts) <==> t in texts
    ensures forall t :: t in ReversedKeySet(texts) <==> exists u :: u in texts && t == Reverse(u)
  {
    if texts != [] {
      var init, last := texts[..|texts| - 1], texts[|texts| - 1];
      KeySetMembers(init);
      assert texts == init + [last];
      forall t | t in ReversedKeySet(texts) ensures exists u :: u in texts && t == Reverse(u) {
        if t == Reverse(last) {
          assert last in texts;
        } else {
          assert t in ReversedKeySet(init);
          var u :| u in init && t == Reverse(u);
          assert u in texts;
        }
      }
    }
  }

  /** One more line adds its rule, if it has one, after the earlier ones. */
  lemma RulesOfSnoc(lines: seq<string>, line: string)
    ensures RulesOf(lines + [line]) ==
      RulesOf(lines) + if ClassifyLine(line).Accepted? then [ClassifyLine(line).rule] else []
  {
    assert (lines + [line])[..|lines|] == lines;
  }

  /** One more rule adds its text to the texts of its own kind only. */
  lemma TextsOfSnoc(rules: seq<Rule>, rule: Rule, kind: Kind)
    ensures TextsOf(rules + [rule], kind) == TextsOf(rules, kind) + if rule.kind == kind then [rule.text] else []
  {
    assert (rules + [rule])[..|rules|] == rules;
  }

  lemma KeySetSnoc(texts: seq<string>, t: string)
    ensures KeySet(texts + [t]) == KeySet(texts) + {t}
    ensures ReversedKeySet(texts + [t]) == ReversedKeySet(texts) + {Reverse(t)}
  {
    assert (texts + [t])[..|texts|] == texts;
  }

  /** The four rule stores, seen by their contents: the key sets of the
      prefix and suffix trees and the substring and pattern slices. */
  datatype Stores = Stores(prefixKeys: set<string>, suffixKeys: set<string>,
                           substrings: seq<string>, patterns: seq<string>)

  /** The `switch blockType`: the rule's text goes to the store of its
      kind (a suffix reversed); the other three are left as they were. */
  function Store(st: Stores, rule: Rule): Stores
  {
    match rule.kind
    case Prefix => st.(prefixKeys := st.prefixKeys + {rule.text})
    case Suffix => st.(suffixKeys := st.suffixKeys + {Reverse(rule.text)})
    case Substring => st.(substrings := st.substrings + [rule.text])
    case Pattern => st.(patterns := st.patterns + [rule.text])
  }

  /** The stores after one pass of the loop body of `Init` on `line`. */
  function LoadLine(st: Stores, line: string): Stores
  {
    var result := ClassifyLine(line);
    if result.Accepted? then Store(st, result.rule) else st
  }

  /** The stores after the line loop of `Init` has run over `lines`. */
  function Load(st: Stores, lines: seq<string>): Stores
  {
    if lines == [] then st else LoadLine(Load(st, lines[..|lines| - 1]), lines[|lines| - 1])
  }

  lemma LoadSnoc(st: Stores, lines: seq<string>, line: string)
    ensures Load(st, lines + [line]) == LoadLine(Load(st, lines), line)
  {
    assert (lines + [line])[..|lines|] == lines;
  }

  /** The loop of `Init` after `n + 1` lines, from the one after `n`. */
  lemma LoadStep(st: Stores, lines: seq<string>, n: nat)
    requires n < |lines|
    ensures Load(st, lines[..n + 1]) == LoadLine(Load(st, lines[..n]), lines[n])
  {
    assert lines[..n + 1][..n] == lines[..n];
  }

  /** What a sequence of rules adds to the stores: the texts of the prefix
      rules to the prefix keys, the reversed texts of the suffix rules to
      the suffix keys, and the substring and pattern texts, in order,
      appended to their slices. */
  function Compile(st: Stores, rules: seq<Rule>): Stores
  {
    Stores(st.prefixKeys + KeySet(TextsOf(rules, Prefix)),
           st.suffixKeys + ReversedKeySet(TextsOf(rules, Suffix)),
           st.substrings + TextsOf(rules, Substring),
           st.patterns + TextsOf(rules, Pattern))
  }

  /** One more rule compiles to one more entry in the store of its kind. */
  lemma CompileSnoc(st: Stores, rules: seq<Rule>, rule: Rule)
    ensures Compile(st, rules + [rule]) == Store(Compile(st, rules), rule)
  {
    TextsOfSnoc(rules, rule, Prefix);
    TextsOfSnoc(rules, rule, Suffix);
    TextsOfSnoc(rules, rule, Substring);
    TextsOfSnoc(rules, rule, Pattern);
    match rule.kind {
      case Prefix => CompileSnocKeys(st, rules, rule);
      case Suffix => CompileSnocKeys(st, rules, rule);
      case Substring => CompileSnocTexts(st, rules, rule);
      case Pattern => CompileSnocTexts(st, rules, rule);
    }
  }

  lemma CompileSnocKeys(st: Stores, rules: seq<Rule>, rule: Rule)
    requires rule.kind == Prefix || rule.kind == Suffix
    requires forall kind :: (TextsOf(rules + [rule], kind) ==
      TextsOf(rules, kind) + if rule.kind == kind then [rule.text] else [])
    ensures Compile(st, rules + [rule]) == Store(Compile(st, rules), rule)
  {
    var rules' := rules + [rule];
    assert TextsOf(rules', Substring) == TextsOf(rules, Substring);
    assert TextsOf(rules', Pattern) == TextsOf(rules, Pattern);
    if rule.kind == Prefix {
      KeySetSnoc(TextsOf(rules, Prefix), rule.text);
      assert TextsOf(rules', Suffix) == TextsOf(rules, Suffix);
    } else {
      KeySetSnoc(TextsOf(rules, Suffix), rule.text);
      assert TextsOf(rules', Prefix) == TextsOf(rules, Prefix);
    }
  }

  lemma CompileSnocTexts(st: Stores, rules: seq<Rule>, rule: Rule)
    requires rule.kind == Substring || rule.kind == Pattern
    requires forall kind :: (TextsOf(rules + [rule], kind) ==
      TextsOf(rules, kind) + if rule.kind == kind then [rule.text] else [])
    ensures Compile(st, rules + [rule]) == Store(Compile(st, rules), rule)
  {
    var rules' := rules + [rule];
    assert TextsOf(rules', Prefix) == TextsOf(rules, Prefix);
    assert TextsOf(rules', Suffix) == TextsOf(rules, Suffix);
    if rule.kind == Substring {
      assert TextsOf(rules', Pattern) == TextsOf(rules, Pattern);
      assert st.substrings + (TextsOf(rules, Substring) + [rule.text]) ==
        st.substrings + TextsOf(rules, Substring) + [rule.text];
    } else {
      assert TextsOf(rules', Substring) == TextsOf(rules, Substring);
      assert st.patterns + (TextsOf(rules, Pattern) + [rule.text]) ==
        st.patterns + TextsOf(rules, Pattern) + [rule.text];
    }
  }

  /** One classified line, compiled: the stores gain the rule it holds, if any. */
  lemma StepCompiles(st: Stores, rules: seq<Rule>, result: LineResult)
    ensures (if result.Accepted? then Store(Compile(st, rules), result.rule) else Compile(st, rules)) ==
      Compile(st, rules + if result.Accepted? then [result.rule] else [])
  {
    if result.Accepted? {
      CompileSnoc(st, rules, result.rule);
    } else {
      assert rules + [] == rules;
    }
  }

  /** Where the accepted lines go: loading the lines compiles their rules,
      in file order. */
  lemma {:induction false} LoadCompiles(st: Stores, lines: seq<string>)
    ensures Load(st, lines) == Compile(st, RulesOf(lines))
  {
    if lines != [] {
      var init, line := lines[..|lines| - 1], lines[|lines| - 1];
      assert lines == init + [line];
      LoadCompiles(st, init);
      LoadCompilesStep(st, init, line);
    }
  }

  /** One more line keeps the loaded stores equal to the compiled ones. */
  lemma LoadCompilesStep(st: Stores, init: seq<string>, line: string)
    requires Load(st, init) == Compile(st, RulesOf(init))
    ensures Load(st, init + [line]) == Compile(st, RulesOf(init + [line]))
  {
    LoadSnoc(st, init, line);
    RulesOfSnoc(init, line);
    StepCompiles(st, RulesOf(init), ClassifyLine(line));
  }

  /** The loop of `Init` run to the end compiles every line's rule. */
  lemma LoadAll(st: Stores, lines: seq<string>)
    ensures Load(st, lines[..|lines|]) == Compile(st, RulesOf(lines))
  {
    assert lines[..|lines|] == lines;
    LoadCompiles(st, lines);
  }

  /** A line is refused for its '@' exactly when, trimmed, it is neither
      blank nor a comment and holds more than one '@'. */
  lemma UnexpectedAtIff(raw: string)
    ensures ClassifyLine(raw) == Skipped(UnexpectedAt) <==>
      var line := TrimSpace(raw);
      line != [] && line[0] != '#' && Count(line, '@') >= 2
  {
    var line := TrimSpace(raw);
    if line == [] || line[0] == '#' {
      assert ClassifyLine(raw) == Skipped(CommentOrBlank);
    } else {
      var parts := Split(line, '@');
      SplitCount(line, '@');
      if |parts| > 2 {
        assert ClassifyLine(raw) == Skipped(UnexpectedAt);
      } else if |parts| == 2 {
        var r := ClassifyText(TrimSpace(parts[0]), TrimSpace(parts[1]));
        assert ClassifyLine(raw) == r;
        assert r != Skipped(UnexpectedAt);
      } else {
        var r := ClassifyText(line, "");
        assert ClassifyLine(raw) == r;
        assert r != Skipped(UnexpectedAt);
      }
    }
  }

  /** A line without '@' that needs no trimming is classified as a whole. */
  lemma ClassifyWithoutAt(line: string)
    requires line != [] && line[0] != '#' && '@' !in line
    requires !IsSpace(line[0]) && !IsSpace(line[|line| - 1])
    ensures ClassifyLine(line) == ClassifyText(line, "")
  {
    SplitNoSeparator(line, '@');
  }

  /** A line `text@window` that needs no trimming is classified by its two sides. */
  lemma ClassifyWithAt(text: string, w: string)
    requires text != [] && text[0] != '#' && '@' !in text && '@' !in w
    requires !IsSpace(text[0]) && !IsSpace(text[|text| - 1])
    requires w != [] && !IsSpace(w[0]) && !IsSpace(w[|w| - 1])
    ensures ClassifyLine(text + "@" + w) == ClassifyText(text, w)
  {
    var line := text + "@" + w;
    assert line == text + ['@'] + w;
    assert line[0] == text[0] && line[|line| - 1] == w[|w| - 1];
    SplitTwo(text, w, '@');
  }

  /** A line without '@' needing no trimming, whose text Strip refuses. */
  lemma SyntaxErrorLine(line: string)
    requires line != [] && line[0] != '#' && '@' !in line
    requires !IsSpace(line[0]) && !IsSpace(line[|line| - 1])
    requires Strip(line) == None
    ensures ClassifyLine(line) == Skipped(SyntaxError)
  {
    ClassifyWithoutAt(line);
  }

  /** A line without '@' needing no trimming, with nothing left once stripped. */
  lemma EmptyRuleLine(line: string, kind: Kind)
    requires line != [] && line[0] != '#' && '@' !in line
    requires !IsSpace(line[0]) && !IsSpace(line[|line| - 1])
    requires Strip(line) == Some((kind, []))
    ensures ClassifyLine(line) == Skipped(EmptyRule)
  {
    ClassifyWithoutAt(line);
  }

  /** Lines too short for their kind. */
  lemma TooShortLine(line: string)
    requires line in {"*", "**", "?"}
    ensures ClassifyLine(line) == Skipped(SyntaxError)
  {
    if line == "?" {
      assert GlobMarkerAt(line, 0);
    } else {
      assert forall i :: 0 <= i < |line| ==> !GlobMarkerAt(line, i);
    }
    SyntaxErrorLine(line);
  }

  /** Lines with nothing left once the markers are stripped. */
  lemma EmptyRuleLines(line: string)
    requires line in {"*.", "."}
    ensures ClassifyLine(line) == Skipped(EmptyRule)
  {
    assert forall i :: 0 <= i < |line| ==> !GlobMarkerAt(line, i);
    var dot := ".";
    assert "*."[1..] == dot;
    assert TrimDot(dot) == [];
    EmptyRuleLine(line, Suffix);
  }

  /** The text of a line that carries no marker of its own. */
  predicate Bare(t: string)
  {
    forall k :: 0 <= k < |t| ==> t[k] !in {'*', '?', '[', '@'} && !IsSpace(t[k])
  }

  /** A window name as written after '@'. */
  predicate PlainWindow(w: string)
  {
    forall k :: 0 <= k < |w| ==> w[k] != '@' && !IsSpace(w[k])
  }

  /** The match text of a rule, markers restored. */
  function RenderText(kind: Kind, text: string): string
  {
    match kind
    case Substring => "*" + text + "*"
    case Prefix => text + "*"
    case Suffix => "*." + text
    case Pattern => text
  }

  /** A rule written back as a line of the rule file. */
  function Render(rule: Rule): string
  {
    RenderText(rule.kind, rule.text) + if rule.window == [] then [] else "@" + rule.window
  }

  /** What a rule text must be for the rule to be written back. */
  predicate Renderable(rule: Rule)
  {
    |rule.text| > 0 && IsLowercase(rule.text) && PlainWindow(rule.window) &&
    (rule.kind in {Prefix, Pattern} ==> rule.text[0] != '#') &&
    if rule.kind == Pattern then
      |rule.text| >= 2 && IsGlobCandidate(rule.text) && Glob.Valid(rule.text) &&
      forall k :: 0 <= k < |rule.text| ==> rule.text[k] != '@' && !IsSpace(rule.text[k])
    else Bare(rule.text)
  }

  lemma RenderTextClassified(kind: Kind, t: string)
    requires Renderable(Rule(kind, t, ""))
    ensures Strip(RenderText(kind, t)) == Some((kind, t))
  {
    var line := RenderText(kind, t);
    match kind
    case Pattern =>
    case Substring =>
      assert line[1..|line| - 1] == t;
      assert !IsGlobCandidate(line) by {
        forall i | 0 <= i < |line| ensures !GlobMarkerAt(line, i) {
          if 0 < i < |line| - 1 {
            assert line[i] == t[i - 1];
          }
        }
      }
    case Prefix =>
      assert line[..|line| - 1] == t;
      assert !IsGlobCandidate(line) by {
        forall i | 0 <= i < |line| ensures !GlobMarkerAt(line, i) {
          if i < |line| - 1 {
            assert line[i] == t[i];
          }
        }
      }
    case Suffix =>
      assert line[1..] == "." + t;
      assert line[|line| - 1] == t[|t| - 1];
      assert !IsGlobCandidate(line) by {
        forall i | 0 <= i < |line| ensures !GlobMarkerAt(line, i) {
          if i >= 2 {
            assert line[i] == t[i - 2];
          }
        }
      }
  }

  /** Writing a rule back and reading the line again gives the same rule:
      for a Substring `*t*`, a Prefix `t*`, a Suffix `*.t` and a Pattern
      `t`, each followed by `@window` when it has one. */
  lemma RenderRoundTrip(rule: Rule)
    requires Renderable(rule)
    ensures ClassifyLine(Render(rule)) == Accepted(rule)
  {
    RenderTextClassified(rule.kind, rule.text);
    RenderTextShape(rule.kind, rule.text);
    if rule.window == [] {
      RenderRoundTripBare(rule);
    } else {
      RenderRoundTripWindow(rule);
    }
  }

  lemma RenderRoundTripBare(rule: Rule)
    requires Renderable(rule) && rule.window == []
    requires var text := RenderText(rule.kind, rule.text);
      '@' !in text && text != [] && text[0] != '#' && !IsSpace(text[0]) && !IsSpace(text[|text| - 1])
    requires Strip(RenderText(rule.kind, rule.text)) == Some((rule.kind, rule.text))
    ensures ClassifyLine(Render(rule)) == Accepted(rule)
  {
    var text := RenderText(rule.kind, rule.text);
    assert Render(rule) == text;
    ClassifyWithoutAt(text);
  }

  lemma RenderRoundTripWindow(rule: Rule)
    requires Renderable(rule) && rule.window != []
    requires var text := RenderText(rule.kind, rule.text);
      '@' !in text && text != [] && text[0] != '#' && !IsSpace(text[0]) && !IsSpace(text[|text| - 1])
    requires Strip(RenderText(rule.kind, rule.text)) == Some((rule.kind, rule.text))
    ensures ClassifyLine(Render(rule)) == Accepted(rule)
  {
    var text := RenderText(rule.kind, rule.text);
    assert Render(rule) == text + "@" + rule.window;
    ClassifyWithAt(text, rule.window);
  }

  lemma RenderTextShape(kind: Kind, t: string)
    requires Renderable(Rule(kind, t, ""))
    ensures var text := RenderText(kind, t);
      '@' !in text && text != [] && text[0] != '#' && !IsSpace(text[0]) && !IsSpace(text[|text| - 1])
  {
    var text := RenderText(kind, t);
    match kind
    case Pattern =>
    case Substring =>
      forall i | 0 <= i < |text| ensures text[i] != '@' {
        if 0 < i < |text| - 1 { assert text[i] == t[i - 1]; }
      }
    case Prefix =>
      forall i | 0 <= i < |text| ensures text[i] != '@' {
        if i < |text| - 1 { assert text[i] == t[i]; }
      }
    case Suffix =>
      assert text[|text| - 1] == t[|t| - 1];
      forall i | 0 <= i < |text| ensures text[i] != '@' {
        if i >= 2 { assert text[i] == t[i - 2]; }
      }
  }

  /** A suffix rule may be written `t`, `.t` or `*.t`: all three give the
      same rule. */
  lemma SuffixSpellings(t: string, line: string)
    requires |t| > 0 && IsLowercase(t) && Bare(t) && t[0] !in {'#', '.'}
    requires line in {t, "." + t, "*." + t}
    ensures ClassifyLine(line) == Accepted(Rule(Suffix, t, ""))
  {
    if line == "*." + t {
      SuffixSpellingsStarred(t);
    } else if line == t {
      BareSuffix(t, t);
    } else {
      assert Bare(line) by {
        forall k | 0 < k < |line| ensures line[k] == t[k - 1] { }
      }
      assert line[1..] == t;
      BareSuffix(line, t);
    }
  }

  lemma SuffixSpellingsStarred(t: string)
    requires |t| > 0 && IsLowercase(t) && Bare(t)
    ensures ClassifyLine("*." + t) == Accepted(Rule(Suffix, t, ""))
  {
    RenderRoundTrip(Rule(Suffix, t, ""));
    assert Render(Rule(Suffix, t, "")) == "*." + t;
  }

  /** A bare line not starting with '*' is a suffix rule, one leading dot dropped. */
  lemma BareSuffix(line: string, t: string)
    requires line != [] && line[0] !in {'#', '*'} && Bare(line) && IsLowercase(t)
    requires t == TrimDot(line) && t != []
    ensures ClassifyLine(line) == Accepted(Rule(Suffix, t, ""))
  {
    assert !IsGlobCandidate(line) by {
      forall i | 0 <= i < |line| ensures !GlobMarkerAt(line, i) { }
    }
    assert '@' !in line;
    ClassifyWithoutAt(line);
  }
}
