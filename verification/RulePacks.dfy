/** The YAML rule-pack records (internal/rules/types.go). */
module RulePacks {
  datatype Option<+T> = None | Some(value: T)

  /** The fields of a rule that merging never looks at. */
  datatype Detail = Detail(name: string, level: int, category: string, keywords: seq<string>, patterns: seq<string>)

  datatype Rule = Rule(id: string, severity: string, enabled: Option<bool>, detail: Detail)

  datatype Override = Override(ruleId: string, severity: string, enabled: Option<bool>)

  datatype Composition = Composition(strategy: string, priority: int)

  datatype RulePack = RulePack(
    name: string,
    rules: seq<Rule>,
    bases: seq<string>,  // the `extends` list
    imports: seq<string>,
    composition: Option<Composition>,
    overrides: seq<Override>,
    sourcePath: string)

  function Priority(p: RulePack): int {
    if p.composition.Some? then p.composition.value.priority else 0
  }
}
