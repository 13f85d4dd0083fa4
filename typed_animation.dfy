/**
 * The hero section's typed-text animation: its options are the built-in
 * defaults overridden, key by key, by the options the caller passes.
 */
module TypedOptions {

  /** A value in the options object. */
  datatype Value = Text(text: string) | Number(number: int) | Flag(flag: bool) | Texts(texts: seq<string>)

  /** The built-in default options. */
  function Defaults(): (r: map<string, Value>)
    ensures r.Keys == {"strings", "typeSpeed", "backSpeed", "backDelay", "startDelay",
                       "loop", "showCursor", "cursorChar", "autoInsertCss"}
    ensures r["strings"].Texts? && |r["strings"].texts| == 6
    ensures r["loop"] == Flag(true) && r["typeSpeed"] == Number(50)
  {
    map[
      "strings" := Texts([
        "compassionate therapy for children",
        "family counseling services",
        "support for adolescents",
        "expert psychological care",
        "evidence-based treatment",
        "a safe space to heal"]),
      "typeSpeed" := Number(50),
      "backSpeed" := Number(30),
      "backDelay" := Number(2000),
      "startDelay" := Number(500),
      "loop" := Flag(true),
      "showCursor" := Flag(true),
      "cursorChar" := Text("|"),
      "autoInsertCss" := Flag(true)
    ]
  }

  /** Object spread `{ ...defaults, ...options }`: every key of both, the caller's value winning. */
  function Merge(defaults: map<string, Value>, options: map<string, Value>): (r: map<string, Value>)
    ensures r.Keys == defaults.Keys + options.Keys
    ensures forall k :: k in options ==> r[k] == options[k]
    ensures forall k :: k in defaults && k !in options ==> r[k] == defaults[k]
  {
    defaults + options
  }

  /** With no options passed (the `options = {}` default), the defaults are used as they are. */
  lemma MergeNoOptions(defaults: map<string, Value>)
    ensures Merge(defaults, map[]) == defaults
  {
  }

  /** The animation component: the element selector and the merged options. */
  class TypedAnimation {
    const selector: string
    const defaultOptions: map<string, Value>
    const options: map<string, Value>

    constructor (selector: string, options: map<string, Value>)
      ensures this.selector == selector
      ensures defaultOptions == Defaults()
      ensures this.options == Merge(Defaults(), options)
    {
      this.selector := selector;
      defaultOptions := Defaults();
      this.options := Merge(Defaults(), options);
    }
  }
}
