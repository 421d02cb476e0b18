/** The options every transformer takes (`DocumentTransformerOptions`) and their
    defaults. */
module TransformerOptions {
  import opened Wrappers

  /** A separator the caller left out is `None`; one given as "" is `Some("")`, since
      `??` only replaces `undefined` and `null`. `format` and `trimElements` are read
      only for their truthiness, so a missing flag is `false`. */
  datatype Options = Options(
    elementSeparator: Option<string>,
    segmentSeparator: Option<string>,
    format: bool,
    trimElements: bool)

  const DEFAULT_ELEMENT_SEPARATOR: string := "*"
  const DEFAULT_SEGMENT_SEPARATOR: string := "~"

  /** The options the HTTP layer starts from before applying the query string. */
  const DEFAULT_OPTIONS: Options :=
    Options(Some(DEFAULT_ELEMENT_SEPARATOR), Some(DEFAULT_SEGMENT_SEPARATOR), true, true)

  /** `{}`, the value a transformer method uses when it is called without options. */
  const NO_OPTIONS: Options := Options(None, None, false, false)
}
