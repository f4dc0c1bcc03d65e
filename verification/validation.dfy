/**
 * The rule-string side of the form-validation UI: `_parseValidation`, which turns a
 * `data-validation` attribute such as `min:3, alias:Name` into name/value entries, and the
 * order in which `_parseRules` hands rules and aliases to the validator. The validator is
 * seen only through the calls it receives, so `_parseRules` yields the list of those calls.
 */
module Validation {
  import opened Wrappers
  import opened Seqs
  import Text

  /** The two separators of the rule string. */
  datatype Options = Options(dataSep: char, dataEqual: char)

  /** `dataSep: ','` and `dataEqual: ':'`. */
  const Defaults := Options(',', ':')

  /** The value of an entry: the literal `true`, or a trimmed string. */
  datatype Value = Flag | Text(text: string)

  /** One `{name, value}` entry of the parsed rule string. */
  datatype Entry = Entry(name: string, value: Value)

  /**
   * One piece of the rule string: the trimmed text before the first `eq` is the name; the
   * trimmed text between the first and the second `eq` is the value, or `true` when that text
   * is absent or empty.
   */
  function EntryOf(item: string, eq: char): Entry {
    var temp := Text.Split(item, eq);
    Entry(Text.Trim(temp[0]), if |temp| > 1 && temp[1] != "" then Text(Text.Trim(temp[1])) else Flag)
  }

  /**
   * `_parseValidation`: no entry for an absent or empty rule string, otherwise one entry per
   * `dataSep`-separated piece, empty pieces included.
   */
  function ParseValidation(ruleString: Option<string>, opts: Options): (r: seq<Entry>)
    ensures ruleString.None? || ruleString == Some("") ==> r == []
    ensures ruleString.Some? && ruleString.value != "" ==> |r| == multiset(ruleString.value)[opts.dataSep] + 1
    ensures ruleString.Some? && ruleString.value != "" ==>
      var pieces := Text.Split(ruleString.value, opts.dataSep);
      |r| == |pieces| && forall i :: 0 <= i < |r| ==> r[i] == EntryOf(pieces[i], opts.dataEqual)
  {
    if ruleString.None? || ruleString.value == "" then []
    else
      var list1 := Text.Split(ruleString.value, opts.dataSep);
      Text.SplitCount(ruleString.value, opts.dataSep);
      seq(|list1|, i requires 0 <= i < |list1| => EntryOf(list1[i], opts.dataEqual))
  }

  /** A piece without `eq` has the value `true`. */
  lemma EntryNoValue(a: string, eq: char)
    requires eq !in a
    ensures EntryOf(a, eq) == Entry(Text.Trim(a), Flag)
  {
    Text.SplitFree(a, eq);
  }

  /** A piece with one `eq`: the value is `true` exactly when nothing follows the `eq`. */
  lemma EntryFields(a: string, b: string, eq: char)
    requires eq !in a && eq !in b
    ensures EntryOf(a + [eq] + b, eq) == Entry(Text.Trim(a), if b == "" then Flag else Text(Text.Trim(b)))
  {
    Text.SplitAfter(a, b, eq);
    Text.SplitFree(b, eq);
  }

  /** Whatever follows a second `eq` is dropped. */
  lemma EntryDropsRest(a: string, b: string, c: string, eq: char)
    requires eq !in a && eq !in b
    ensures EntryOf(a + [eq] + b + [eq] + c, eq) == EntryOf(a + [eq] + b, eq)
  {
    assert a + [eq] + b + [eq] + c == a + [eq] + (b + [eq] + c);
    Text.SplitAfter(a, b + [eq] + c, eq);
    Text.SplitAfter(b, c, eq);
    EntryFields(a, b, eq);
  }

  /** A value made only of white space is the empty string, not `true`. */
  lemma EntryBlankValue(a: string, b: string, eq: char)
    requires eq !in a && eq !in b && b != ""
    requires forall k :: 0 <= k < |b| ==> Text.IsTrimmable(b[k])
    ensures EntryOf(a + [eq] + b, eq).value == Text("")
  {
    EntryFields(a, b, eq);
    Text.TrimBlank(b);
  }

  /** The text of one entry: the name, then `eq` and the value unless the value is `true`. */
  function RenderEntry(e: Entry, opts: Options): string {
    e.name + if e.value.Text? then [opts.dataEqual] + e.value.text else ""
  }

  /** A rule string that lists `es`, separated by `dataSep`. */
  function Render(es: seq<Entry>, opts: Options): string {
    Text.Join(seq(|es|, i requires 0 <= i < |es| => RenderEntry(es[i], opts)), opts.dataSep)
  }

  /** Non-empty text, already trimmed, holding neither separator. */
  predicate Plain(s: string, opts: Options) {
    && s != [] && !Text.IsTrimmable(s[0]) && !Text.IsTrimmable(s[|s| - 1])
    && opts.dataSep !in s && opts.dataEqual !in s
  }

  /** An entry that a rule string can spell so that it parses back unchanged. */
  predicate Renderable(e: Entry, opts: Options) {
    Plain(e.name, opts) && (e.value.Text? ==> Plain(e.value.text, opts))
  }

  /** Each rendered piece parses back to its entry. */
  lemma EntryRender(e: Entry, opts: Options)
    requires Renderable(e, opts)
    ensures EntryOf(RenderEntry(e, opts), opts.dataEqual) == e
  {
    var name, eq := e.name, opts.dataEqual;
    Text.TrimKept(name);
    if e.value.Text? {
      var v := e.value.text;
      assert RenderEntry(e, opts) == name + [eq] + v;
      Text.TrimKept(v);
      EntryFields(name, v, eq);
    } else {
      assert RenderEntry(e, opts) == name + "";
      assert name + "" == name;
      EntryNoValue(name, eq);
    }
  }

  /** Parsing a rendered rule string gives back the entries, in order. */
  lemma ParseRender(es: seq<Entry>, opts: Options)
    requires opts.dataSep != opts.dataEqual
    requires forall i :: 0 <= i < |es| ==> Renderable(es[i], opts)
    ensures ParseValidation(Some(Render(es, opts)), opts) == es
  {
    if es != [] {
      var text := Render(es, opts);
      var parts := RenderSplits(es, opts);
      ParsePieces(text, opts, parts);
      EntriesRender(es, parts, opts);
      var r := ParseValidation(Some(text), opts);
      assert forall i :: 0 <= i < |r| ==> r[i] == es[i];
    }
  }

  /** A non-empty rule string parses to the entry of each of its pieces. */
  lemma ParsePieces(text: string, opts: Options, parts: seq<string>)
    requires text != "" && Text.Split(text, opts.dataSep) == parts
    ensures var r := ParseValidation(Some(text), opts);
      |r| == |parts| && forall i :: 0 <= i < |parts| ==> r[i] == EntryOf(parts[i], opts.dataEqual)
  {
  }

  /** Each written entry reads back as itself. */
  lemma EntriesRender(es: seq<Entry>, parts: seq<string>, opts: Options)
    requires forall i :: 0 <= i < |es| ==> Renderable(es[i], opts)
    requires |parts| == |es| && forall i :: 0 <= i < |es| ==> parts[i] == RenderEntry(es[i], opts)
    ensures forall i :: 0 <= i < |es| ==> EntryOf(parts[i], opts.dataEqual) == es[i]
  {
    forall i | 0 <= i < |es| ensures EntryOf(parts[i], opts.dataEqual) == es[i] {
      EntryRender(es[i], opts);
    }
  }

  /** A non-empty rule string written from renderable entries splits back into the written entries. */
  lemma RenderSplits(es: seq<Entry>, opts: Options) returns (parts: seq<string>)
    requires opts.dataSep != opts.dataEqual && es != []
    requires forall i :: 0 <= i < |es| ==> Renderable(es[i], opts)
    ensures Render(es, opts) != ""
    ensures Text.Split(Render(es, opts), opts.dataSep) == parts
    ensures |parts| == |es| && forall i :: 0 <= i < |es| ==> parts[i] == RenderEntry(es[i], opts)
  {
    parts := seq(|es|, i requires 0 <= i < |es| => RenderEntry(es[i], opts));
    assert Render(es, opts) == Text.Join(parts, opts.dataSep);
    forall i | 0 <= i < |parts| ensures opts.dataSep !in parts[i] {
      assert parts[i] == RenderEntry(es[i], opts);
    }
    Text.SplitJoin(parts, opts.dataSep);
    Text.JoinHead(parts, opts.dataSep);
    assert parts[0] != "" by { assert es[0].name <= parts[0]; }
  }

  /** A form field, as far as the rule order depends on it. */
  datatype Item = Item(
    required: bool,       // the `required` property
    tagName: string,      // the lower-cased tag name
    inputType: string,    // the `type` property
    validation: Option<string>,  // the `data-validation` attribute, when present
    labelText: Option<string>)   // the text of the `label` whose `for` names the field, when there is one

  /** A call `_parseRules` makes on the validator. */
  datatype Action =
    | AddRule(rule: string)              // a built-in rule by name: `required`, or the field type
    | Apply(name: string, value: Value)  // the rule that the registered factory `name` builds from `value`
    | SetAlias(alias: Value)             // the field's display name

  /** The field types that have a rule of their own. */
  const TypeRules: set<string> := {"number", "email", "url"}

  /** The tags whose tag name stands for the field type. */
  const TagNames: set<string> := {"textarea", "select"}

  /** The type of the field: the tag name for `textarea` and `select`, the `type` property otherwise. */
  function FieldType(item: Item): (t: string)
    ensures item.tagName in TagNames ==> t !in TypeRules
  {
    if item.tagName in TagNames then item.tagName else item.inputType
  }

  /** The message thrown for a rule name nobody registered. */
  function NotFound(name: string): string {
    "`" + name + "` is not found"
  }

  /** The full-width colon, which ends a label as the ASCII one does. */
  const FullColon: char := '\U{FF1A}'

  /** The longest prefix of `s` holding neither colon, which is what `REG_LABEL` captures. */
  function LabelText(s: string): (r: string)
    ensures r <= s && ':' !in r && FullColon !in r
    ensures |r| < |s| ==> s[|r|] == ':' || s[|r|] == FullColon
  {
    if s == [] || s[0] == ':' || s[0] == FullColon then "" else [s[0]] + LabelText(s[1..])
  }

  /** The alias taken from a label: its text before the first colon, trimmed. */
  function LabelAlias(caption: string): string {
    Text.Trim(LabelText(caption))
  }

  /** The rules added before the data rules: `required`, then the type rule. */
  function Leading(item: Item): seq<Action> {
    (if item.required then [AddRule("required")] else [])
    + (if FieldType(item) in TypeRules then [AddRule(FieldType(item))] else [])
  }

  /** The state of the `forEach` over the entries: the calls so far, `hasAlias`, and what was thrown. */
  datatype Progress = Progress(actions: seq<Action>, hasAlias: bool, thrown: Option<string>)

  /** The `forEach` over the entries, one entry at a time; nothing happens after a throw. */
  function Fold(es: seq<Entry>, rules: set<string>): Progress
    decreases |es|
  {
    if es == [] then Progress([], false, None)
    else
      var p := Fold(es[..|es| - 1], rules);
      var e := es[|es| - 1];
      if p.thrown.Some? then p
      else if e.name == "alias" then Progress(p.actions + [SetAlias(e.value)], true, None)
      else if e.name !in rules then Progress(p.actions, p.hasAlias, Some(NotFound(e.name)))
      else Progress(p.actions + [Apply(e.name, e.value)], p.hasAlias, None)
  }

  /** What `_parseRules` leaves behind: the calls made, in order, and the exception, if any. */
  datatype Outcome = Outcome(actions: seq<Action>, thrown: Option<string>)

  /**
   * `_parseRules`: the leading rules, the entries' calls, and, when no entry was an alias and
   * the field has a label, the alias read from the label.
   */
  function Rules(item: Item, rules: set<string>, opts: Options): Outcome {
    var p := Fold(ParseValidation(item.validation, opts), rules);
    if p.thrown.Some? then Outcome(Leading(item) + p.actions, p.thrown)
    else if !p.hasAlias && item.labelText.Some? then
      Outcome(Leading(item) + p.actions + [SetAlias(Text(LabelAlias(item.labelText.value)))], None)
    else Outcome(Leading(item) + p.actions, None)
  }

  // Reference definitions: each entry on its own.

  /** The call an entry makes: an alias sets the alias, any other name applies its rule. */
  function ActionOf(e: Entry): Action {
    if e.name == "alias" then SetAlias(e.value) else Apply(e.name, e.value)
  }

  /** The calls of `es`, one per entry, in order. */
  function ActionsOf(es: seq<Entry>): seq<Action> {
    seq(|es|, i requires 0 <= i < |es| => ActionOf(es[i]))
  }

  /** An entry that does not throw: an alias, or a registered rule. */
  predicate Known(e: Entry, rules: set<string>) {
    e.name == "alias" || e.name in rules
  }

  /** Some entry is an alias. */
  predicate HasAliasEntry(es: seq<Entry>) {
    exists i :: 0 <= i < |es| && es[i].name == "alias"
  }

  /** The index of the first entry that throws, or `|es|` when none does. */
  function FirstUnknown(es: seq<Entry>, rules: set<string>): (j: nat)
    ensures j <= |es|
    ensures forall i :: 0 <= i < j ==> Known(es[i], rules)
    ensures j < |es| ==> !Known(es[j], rules)
  {
    if es == [] || !Known(es[0], rules) then 0 else 1 + FirstUnknown(es[1..], rules)
  }

  /** The three properties of `FirstUnknown` pin it down. */
  lemma {:induction false} FirstUnknownUnique(es: seq<Entry>, rules: set<string>, j: nat)
    requires j <= |es| && forall i :: 0 <= i < j ==> Known(es[i], rules)
    requires j < |es| ==> !Known(es[j], rules)
    ensures FirstUnknown(es, rules) == j
  {
  }

  /** The calls of `es` extend those of all but its last entry by one. */
  lemma ActionsSnoc(es: seq<Entry>)
    requires es != []
    ensures ActionsOf(es) == ActionsOf(es[..|es| - 1]) + [ActionOf(es[|es| - 1])]
  {
  }

  /** `es` has an alias entry exactly when all but its last entry have one or the last is one. */
  lemma HasAliasSnoc(es: seq<Entry>)
    requires es != []
    ensures HasAliasEntry(es) == (HasAliasEntry(es[..|es| - 1]) || es[|es| - 1].name == "alias")
  {
    var init := es[..|es| - 1];
    if HasAliasEntry(es) && es[|es| - 1].name != "alias" {
      var i :| 0 <= i < |es| && es[i].name == "alias";
      assert init[i] == es[i];
    }
    if HasAliasEntry(init) {
      var i :| 0 <= i < |init| && init[i].name == "alias";
      assert es[i] == init[i];
    }
  }

  /**
   * What the `forEach` over `es` should leave: the calls of the entries before the first one
   * that throws, whether one of those was an alias, and the throw for that entry's name, or no
   * throw when every entry is an alias or a registered rule.
   */
  function Expected(es: seq<Entry>, rules: set<string>): Progress {
    var j := FirstUnknown(es, rules);
    if j == |es| then Progress(ActionsOf(es), HasAliasEntry(es), None)
    else Progress(ActionsOf(es[..j]), HasAliasEntry(es[..j]), Some(NotFound(es[j].name)))
  }

  /** Once an entry has thrown, later entries change nothing. */
  lemma FoldAfterThrow(es: seq<Entry>, rules: set<string>)
    requires es != []
    requires var init := es[..|es| - 1];
      Fold(init, rules) == Expected(init, rules) && FirstUnknown(init, rules) < |init|
    ensures Fold(es, rules) == Expected(es, rules)
  {
    var init := es[..|es| - 1];
    var j := FirstUnknown(init, rules);
    FirstUnknownUnique(es, rules, j);
    assert init[..j] == es[..j];
  }

  /** A known last entry after known entries adds its call. */
  lemma FoldKnownStep(es: seq<Entry>, rules: set<string>)
    requires es != []
    requires var init := es[..|es| - 1];
      Fold(init, rules) == Expected(init, rules) && FirstUnknown(init, rules) == |init|
    requires Known(es[|es| - 1], rules)
    ensures Fold(es, rules) == Expected(es, rules)
  {
    FirstUnknownUnique(es, rules, |es|);
    ActionsSnoc(es);
    HasAliasSnoc(es);
  }

  /** An unknown last entry after known entries throws. */
  lemma FoldUnknownStep(es: seq<Entry>, rules: set<string>)
    requires es != []
    requires var init := es[..|es| - 1];
      Fold(init, rules) == Expected(init, rules) && FirstUnknown(init, rules) == |init|
    requires !Known(es[|es| - 1], rules)
    ensures Fold(es, rules) == Expected(es, rules)
  {
    var init := es[..|es| - 1];
    FirstUnknownUnique(es, rules, |init|);
    assert es[..|init|] == init;
  }

  /**
   * The `forEach` over the entries makes the calls of the entries before the first one that
   * throws, in order; `hasAlias` is set exactly when one of those was an alias; and it throws
   * for that entry's name, or not at all when every entry is an alias or a registered rule.
   */
  lemma {:induction false} FoldSpec(es: seq<Entry>, rules: set<string>)
    ensures Fold(es, rules) == Expected(es, rules)
    decreases |es|
  {
    if es != [] {
      var init := es[..|es| - 1];
      FoldSpec(init, rules);
      if FirstUnknown(init, rules) < |init| {
        FoldAfterThrow(es, rules);
      } else if Known(es[|es| - 1], rules) {
        FoldKnownStep(es, rules);
      } else {
        FoldUnknownStep(es, rules);
      }
    }
  }

  /** The alias `_parseRules` reads from the label, when it reads one. */
  function LabelTail(item: Item, es: seq<Entry>): seq<Action> {
    if !HasAliasEntry(es) && item.labelText.Some? then [SetAlias(Text(LabelAlias(item.labelText.value)))] else []
  }

  /**
   * `_parseRules` in terms of the entries: the leading rules, then one call per entry in order
   * up to the first entry that is neither an alias nor a registered rule, where it throws; when
   * no entry throws, the label's alias follows if no entry was an alias.
   */
  lemma RulesSpec(item: Item, rules: set<string>, opts: Options)
    ensures var es := ParseValidation(item.validation, opts);
      var j := FirstUnknown(es, rules);
      Rules(item, rules, opts)
      == if j < |es| then Outcome(Leading(item) + ActionsOf(es[..j]), Some(NotFound(es[j].name)))
         else Outcome(Leading(item) + ActionsOf(es) + LabelTail(item, es), None)
  {
    var es := ParseValidation(item.validation, opts);
    var j := FirstUnknown(es, rules);
    var p := Fold(es, rules);
    FoldSpec(es, rules);
    assert p == Expected(es, rules);
    if j < |es| {
      assert p.thrown == Some(NotFound(es[j].name)) && p.actions == ActionsOf(es[..j]);
    } else {
      assert p == Progress(ActionsOf(es), HasAliasEntry(es), None);
      if LabelTail(item, es) == [] {
        assert Leading(item) + ActionsOf(es) + [] == Leading(item) + ActionsOf(es);
      }
    }
  }

  /** The leading rules followed by calls that are not built-in rules. */
  lemma LeadingShape(item: Item, rest: seq<Action>)
    requires forall k :: 0 <= k < |rest| ==> !rest[k].AddRule?
    ensures var a := Leading(item) + rest;
      item.required <==> (a != [] && a[0] == AddRule("required"))
    ensures var a := Leading(item) + rest;
      forall t :: AddRule(t) in a <==> (t == "required" && item.required) || (t == FieldType(item) && t in TypeRules)
    ensures var a := Leading(item) + rest;
      forall i, j :: 0 <= i < j < |a| && a[j].AddRule? ==> a[i].AddRule?
  {
    var lead, a := Leading(item), Leading(item) + rest;
    forall t ensures AddRule(t) in a <==> AddRule(t) in lead {
    }
    forall i, j | 0 <= i < j < |a| && a[j].AddRule? ensures a[i].AddRule? {
    }
  }

  /**
   * `required` comes first exactly when the field is required; the built-in rules are `required`
   * and the type rule of a `number`, `email` or `url` field and nothing else; and they all come
   * before any other call.
   */
  lemma RulesLeading(item: Item, rules: set<string>, opts: Options)
    ensures var a := Rules(item, rules, opts).actions;
      item.required <==> (a != [] && a[0] == AddRule("required"))
    ensures var a := Rules(item, rules, opts).actions;
      forall t :: AddRule(t) in a <==> (t == "required" && item.required) || (t == FieldType(item) && t in TypeRules)
    ensures var a := Rules(item, rules, opts).actions;
      forall i, j :: 0 <= i < j < |a| && a[j].AddRule? ==> a[i].AddRule?
  {
    var rest := RulesRest(item, rules, opts);
    LeadingShape(item, rest);
  }

  /** The calls after the leading rules are entry calls and the label's alias, never a built-in rule. */
  lemma RulesRest(item: Item, rules: set<string>, opts: Options) returns (rest: seq<Action>)
    ensures Rules(item, rules, opts).actions == Leading(item) + rest
    ensures forall k :: 0 <= k < |rest| ==> !rest[k].AddRule?
  {
    var es := ParseValidation(item.validation, opts);
    var p := Fold(es, rules);
    FoldNoBuiltIn(es, rules);
    if p.thrown.None? && !p.hasAlias && item.labelText.Some? {
      var alias := SetAlias(Text(LabelAlias(item.labelText.value)));
      rest := p.actions + [alias];
      assert Rules(item, rules, opts).actions == Leading(item) + p.actions + [alias];
      AppendAssoc(Leading(item), p.actions, [alias]);
      NoBuiltInSnoc(p.actions, alias);
    } else {
      rest := p.actions;
      assert Rules(item, rules, opts).actions == Leading(item) + p.actions;
    }
  }

  /** A call that is not a built-in rule, appended to such calls. */
  lemma NoBuiltInSnoc(actions: seq<Action>, a: Action)
    requires forall k :: 0 <= k < |actions| ==> !actions[k].AddRule?
    requires !a.AddRule?
    ensures forall k :: 0 <= k < |actions + [a]| ==> !(actions + [a])[k].AddRule?
  {
  }

  /** The `forEach` over the entries never adds a built-in rule. */
  lemma {:induction false} FoldNoBuiltIn(es: seq<Entry>, rules: set<string>)
    ensures forall k :: 0 <= k < |Fold(es, rules).actions| ==> !Fold(es, rules).actions[k].AddRule?
    decreases |es|
  {
    if es != [] {
      FoldNoBuiltIn(es[..|es| - 1], rules);
    }
  }

  /**
   * The label only ever adds one final alias, and only when no entry throws, no entry is an
   * alias and the field has a label.
   */
  lemma RulesLabel(item: Item, rules: set<string>, opts: Options)
    ensures var o := Rules(item.(labelText := None), rules, opts);
      var es := ParseValidation(item.validation, opts);
      Rules(item, rules, opts)
      == if o.thrown.None? && !HasAliasEntry(es) && item.labelText.Some?
         then Outcome(o.actions + [SetAlias(Text(LabelAlias(item.labelText.value)))], None)
         else o
  {
    var es := ParseValidation(item.validation, opts);
    FoldSpec(es, rules);
    assert Leading(item.(labelText := None)) == Leading(item);
  }

  /** After a throw, later entries leave the fold as it was. */
  lemma {:induction false} FoldSticky(es: seq<Entry>, rules: set<string>, n: nat)
    requires n <= |es| && Fold(es[..n], rules).thrown.Some?
    ensures Fold(es, rules) == Fold(es[..n], rules)
    decreases |es|
  {
    if n < |es| {
      var init := es[..|es| - 1];
      assert init[..n] == es[..n];
      FoldSticky(init, rules, n);
    } else {
      assert es[..n] == es;
    }
  }

  /**
   * The `forEach` of `_parseRules` over the entries, with its `hasAlias` flag: an alias sets the
   * alias, a registered name applies its rule, and the first unknown name throws.
   */
  method ForEachEntry(validationList: seq<Entry>, rules: set<string>) returns (actions: seq<Action>, hasAlias: bool, thrown: Option<string>)
    ensures Progress(actions, hasAlias, thrown) == Fold(validationList, rules)
  {
    actions, hasAlias := [], false;
    var i := 0;
    while i < |validationList|
      invariant 0 <= i <= |validationList|
      invariant Fold(validationList[..i], rules) == Progress(actions, hasAlias, None)
    {
      var validation := validationList[i];
      assert validationList[..i + 1][..i] == validationList[..i];
      if validation.name == "alias" {
        actions := actions + [SetAlias(validation.value)];
        hasAlias := true;
      } else if validation.name !in rules {
        FoldSticky(validationList, rules, i + 1);
        return actions, hasAlias, Some(NotFound(validation.name));
      } else {
        actions := actions + [Apply(validation.name, validation.value)];
      }
      i := i + 1;
    }
    assert validationList[..i] == validationList;
    thrown := None;
  }

  /**
   * `_parseRules`, call by call: `required`, the type rule, the entries, then the label
   * fallback when no entry was an alias.
   */
  method ParseRules(item: Item, rules: set<string>, opts: Options) returns (o: Outcome)
    ensures o == Rules(item, rules, opts)
  {
    var actions: seq<Action> := [];
    if item.required {
      actions := actions + [AddRule("required")];
    }
    var fieldType := if item.tagName in TagNames then item.tagName else item.inputType;
    if fieldType == "number" || fieldType == "email" || fieldType == "url" {
      actions := actions + [AddRule(fieldType)];
    }
    assert actions == Leading(item);
    var validationList := ParseValidation(item.validation, opts);
    var done, hasAlias, thrown := ForEachEntry(validationList, rules);
    actions := actions + done;
    if thrown.Some? {
      return Outcome(actions, thrown);
    }
    if !hasAlias && item.labelText.Some? {
      actions := actions + [SetAlias(Text(LabelAlias(item.labelText.value)))];
    }
    return Outcome(actions, None);
  }
}
