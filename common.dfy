/** Shared vocabulary of the diffengine model: optional values, timestamps
    and the foreign libraries the pipeline calls into. */
module Common {

  datatype Option<+T> = None | Some(value: T)

  /** A `datetime` as a count of microseconds (its resolution) since an
      arbitrary epoch. */
  type Time = int

  /** The foreign libraries the pipeline relies on, kept uninterpreted:
      `bleach.clean(html, tags=allowed, strip=True)`, the Unicode general
      category test `unicodedata.category(c).startswith('P')`,
      `htmldiff.render_html_diff(old, new)` and the calendar date
      `d.strftime('%Y-%m-%d')` of a timestamp. */
  datatype Libs = Libs(
    clean: (seq<string>, string) -> string,
    isPunct: char -> bool,
    render: (string, string) -> string,
    day: Time -> string)
}
