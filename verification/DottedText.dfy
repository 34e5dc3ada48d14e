/** Text in parts with dots between them, as keys of both file formats are written. */
module DottedText {
  /** The parts with a dot between each two. */
  function Dotted(parts: seq<string>): string
    requires parts != []
  {
    if |parts| == 1 then parts[0] else parts[0] + ['.'] + Dotted(parts[1..])
  }
}
