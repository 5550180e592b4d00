// The keyword classifier of the chat page (`determineCategory`) and the
// name normalisation used when statistics buckets are matched on delete
// (`normalizeCategory`).
module Categories {
  import opened JsText

  /** Every label the classifier can return: the rule labels in rule order, then the default. */
  const Labels: seq<string> :=
    ["Heridas", "Quemaduras", "Fracturas", "RCP", "Mordeduras", "Atragantamiento", "Cortes", "Otros"]

  /** The label given to text that no rule matches. */
  const Default: string := "Otros"

  /** The text the rules are matched against: question and answer, space-joined and lower-cased. */
  function CombinedText(question: string, answer: string): string {
    Lower(question + " " + answer)
  }

  /** The classifier as the page writes it: a cascade of keyword tests, first match wins. */
  function DetermineCategory(question: string, answer: string): (category: string)
    ensures category in Labels
  {
    var text := CombinedText(question, answer);
    if Contains(text, "herida") || Contains(text, "corte") then "Heridas"
    else if Contains(text, "quemadura") then "Quemaduras"
    else if Contains(text, "fractura") || Contains(text, "hueso") then "Fracturas"
    else if Contains(text, "rcp") || Contains(text, "reanimación") then "RCP"
    else if Contains(text, "mordeduras") then "Mordeduras"
    else if Contains(text, "atragantamiento") then "Atragantamiento"
    else if Contains(text, "cortes") then "Cortes"
    else Default
  }

  /** One classification rule: a label and the keywords any one of which selects it. */
  datatype Rule = Rule(name: string, keywords: seq<string>)

  /** The classification rules as an ordered table, an independent statement of the cascade. */
  const Rules: seq<Rule> := [
    Rule("Heridas", ["herida", "corte"]),
    Rule("Quemaduras", ["quemadura"]),
    Rule("Fracturas", ["fractura", "hueso"]),
    Rule("RCP", ["rcp", "reanimación"]),
    Rule("Mordeduras", ["mordeduras"]),
    Rule("Atragantamiento", ["atragantamiento"]),
    Rule("Cortes", ["cortes"])
  ]

  /** Whether `text` contains at least one of `keywords`. */
  predicate AnyContained(keywords: seq<string>, text: string) {
    |keywords| > 0 && (Contains(text, keywords[0]) || AnyContained(keywords[1..], text))
  }

  /** The label of the first rule in `rules` that matches `text`, or the default label. */
  function FirstMatchingRule(rules: seq<Rule>, text: string): (category: string)
    ensures (forall i :: 0 <= i < |rules| ==> !AnyContained(rules[i].keywords, text)) ==> category == Default
    ensures (exists i :: 0 <= i < |rules| && AnyContained(rules[i].keywords, text)) ==>
      exists i :: 0 <= i < |rules| && AnyContained(rules[i].keywords, text) && category == rules[i].name &&
        forall j :: 0 <= j < i ==> !AnyContained(rules[j].keywords, text)
  {
    if rules == [] then Default
    else if AnyContained(rules[0].keywords, text) then rules[0].name
    else
      var r := FirstMatchingRule(rules[1..], text);
      assert forall i :: 1 <= i < |rules| ==> rules[i] == rules[1..][i - 1];
      r
  }

  lemma SingleContained(k: string, text: string)
    ensures AnyContained([k], text) == Contains(text, k)
  {
    assert [k][1..] == [];
  }

  lemma PairContained(k1: string, k2: string, text: string)
    ensures AnyContained([k1, k2], text) == (Contains(text, k1) || Contains(text, k2))
  {
    assert [k1, k2][1..] == [k2];
    SingleContained(k2, text);
  }

  /** One step of the rule table's evaluation, from rule `k` on. */
  lemma FirstMatchingRuleFrom(k: nat, text: string)
    requires k < |Rules|
    ensures FirstMatchingRule(Rules[k..], text) ==
      if AnyContained(Rules[k].keywords, text) then Rules[k].name else FirstMatchingRule(Rules[k + 1..], text)
  {
    assert Rules[k..][0] == Rules[k];
    assert Rules[k..][1..] == Rules[k + 1..];
  }

  /** The cascade and the rule table agree on every question and answer. */
  lemma DetermineCategoryFollowsRules(question: string, answer: string)
    ensures DetermineCategory(question, answer) == FirstMatchingRule(Rules, CombinedText(question, answer))
  {
    var text := CombinedText(question, answer);
    PairContained("herida", "corte", text);
    PairContained("fractura", "hueso", text);
    PairContained("rcp", "reanimación", text);
    SingleContained("quemadura", text);
    SingleContained("mordeduras", text);
    SingleContained("atragantamiento", text);
    SingleContained("cortes", text);
    assert Rules[0..] == Rules;
    FirstMatchingRuleFrom(0, text);
    FirstMatchingRuleFrom(1, text);
    FirstMatchingRuleFrom(2, text);
    FirstMatchingRuleFrom(3, text);
    FirstMatchingRuleFrom(4, text);
    FirstMatchingRuleFrom(5, text);
    FirstMatchingRuleFrom(6, text);
    assert Rules[7..] == [];
  }

  /** The "Cortes" rule never fires: any text containing "cortes" contains "corte",
      which the first rule already claims for "Heridas". */
  lemma CortesRuleUnreachable(question: string, answer: string)
    ensures DetermineCategory(question, answer) != "Cortes"
    ensures Contains(CombinedText(question, answer), "cortes") ==> DetermineCategory(question, answer) == "Heridas"
  {
    var text := CombinedText(question, answer);
    if Contains(text, "cortes") {
      assert "corte" + "s" == "cortes";
      ContainsNeedlePrefix(text, "corte", "s");
    }
  }

  /** `normalizeCategory`: trimmed, then lower-cased. */
  function NormalizeCategory(name: string): string {
    Lower(Trim(name))
  }

  /** A normalised name has no whitespace at either end and no upper-case letter,
      and it is empty exactly when the name is all whitespace. */
  lemma NormalizeCategoryShape(name: string)
    ensures var r := NormalizeCategory(name);
      && (r == [] || (!IsSpace(r[0]) && !IsSpace(r[|r| - 1])))
      && (forall i :: 0 <= i < |r| ==> !IsUpper(r[i]))
      && (r == [] <==> forall i :: 0 <= i < |name| ==> IsSpace(name[i]))
  {
    var t := Trim(name);
    TrimShape(name);
    LowerAt(t);
    assert t != [] ==> ToLowerChar(t[0]) == Lower(t)[0] && !IsSpace(ToLowerChar(t[0]));
    assert t != [] ==> !IsSpace(ToLowerChar(t[|t| - 1]));
  }

  /** Normalising twice is normalising once. */
  lemma NormalizeCategoryIdempotent(name: string)
    ensures NormalizeCategory(NormalizeCategory(name)) == NormalizeCategory(name)
  {
    var n := NormalizeCategory(name);
    NormalizeCategoryShape(name);
    TrimTrimmed(n);
    LowerOfLower(n);
  }

  /** A name without whitespace at either end normalises to its lower-case form. */
  lemma NormalizeTrimmed(name: string)
    requires |name| > 0 && !IsSpace(name[0]) && !IsSpace(name[|name| - 1])
    ensures NormalizeCategory(name) == Lower(name)
  {
    TrimTrimmed(name);
  }

  /** The label, or the fallback "General", that starts with `c`. */
  function NamedBy(c: char): string {
    if c == 'H' then "Heridas" else if c == 'Q' then "Quemaduras" else if c == 'F' then "Fracturas"
    else if c == 'R' then "RCP" else if c == 'M' then "Mordeduras" else if c == 'A' then "Atragantamiento"
    else if c == 'C' then "Cortes" else if c == 'O' then "Otros" else "General"
  }

  /** Each label, and the fallback "General", is fixed by its capital initial and ends in a non-space. */
  lemma InitialNamesLabel(a: string)
    requires a in Labels || a == "General"
    ensures |a| > 0 && 'A' <= a[0] <= 'Z' && !IsSpace(a[|a| - 1]) && NamedBy(a[0]) == a
  {
  }

  /** No two labels, and no label and the page's fallback "General", collide after
      normalisation: their initials already differ. */
  lemma NormalizedLabelsDiffer(a: string, b: string)
    requires a in Labels && (b in Labels || b == "General") && a != b
    ensures NormalizeCategory(a) != NormalizeCategory(b)
  {
    InitialNamesLabel(a);
    InitialNamesLabel(b);
    NormalizeTrimmed(a);
    NormalizeTrimmed(b);
    LowerAt(a);
    LowerAt(b);
    assert Lower(a)[0] == ToLowerChar(a[0]) && Lower(b)[0] == ToLowerChar(b[0]);
  }
}
