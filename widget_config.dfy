/** The options object given to the widget and the configuration merged from it
    (autocomplete.js lines 5 and 8-12). */
module WidgetConfig {

  datatype Option<T> = None | Some(value: T)

  /** The options a caller may pass; `None` stands for a property that is absent. */
  datatype Options = Options(suggestions: Option<seq<string>>, showLabel: Option<bool>, labelText: Option<string>)

  /** The merged configuration: whether the heading row is shown, and its text. */
  datatype Config = Config(showLabel: bool, labelText: string)

  const DefaultShowLabel := true
  const DefaultLabel := "Suggestions"

  /** `options.suggestions || []`: the supplied candidate list, or none. */
  function CandidatesOf(options: Options): (candidates: seq<string>)
    ensures options.suggestions.Some? ==> candidates == options.suggestions.value
    ensures options.suggestions.None? ==> candidates == []
  {
    match options.suggestions
    case Some(list) => list
    case None => []
  }

  /** `{ showLabel: true, label: 'Suggestions', ...options }`: every supplied option
      overrides its default, every absent one takes the default. */
  function Merge(options: Options): (config: Config)
    ensures options.showLabel.Some? ==> config.showLabel == options.showLabel.value
    ensures options.showLabel.None? ==> config.showLabel == DefaultShowLabel
    ensures options.labelText.Some? ==> config.labelText == options.labelText.value
    ensures options.labelText.None? ==> config.labelText == DefaultLabel
  {
    Config(
      if options.showLabel.Some? then options.showLabel.value else DefaultShowLabel,
      if options.labelText.Some? then options.labelText.value else DefaultLabel)
  }

  /** The heading row of the panel: the label text when `showLabel` is set, none otherwise
      (lines 29-34). */
  function Heading(config: Config): (heading: Option<string>)
    ensures heading.Some? <==> config.showLabel
    ensures heading.Some? ==> heading.value == config.labelText
  {
    if config.showLabel then Some(config.labelText) else None
  }
}
