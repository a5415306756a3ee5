/** The colour table of MasterMind/lib/constants.rb and the one at the head
    of MasterMind/lib/board.rb: six colour names and their ANSI escape codes,
    with "white" (board only) being the reset code. */
module Colors {

  const RED_CODE: string := "\U{1B}[31m"
  const BLUE_CODE: string := "\U{1B}[34m"
  const GREEN_CODE: string := "\U{1B}[32m"
  const YELLOW_CODE: string := "\U{1B}[33m"
  const CYAN_CODE: string := "\U{1B}[36m"
  const PURPLE_CODE: string := "\U{1B}[35m"
  /** The board's `:white`, which is the terminal's reset code. */
  const RESET: string := "\U{1B}[0m"

  /** POSSIBLE_COLORS, in the order of the source. */
  const POSSIBLE_COLORS: seq<string> := ["red", "blue", "green", "yellow", "cyan", "purple"]

  /** `Constants::COLORS[name]` interpolated into a string: the escape code
      of one of the six colours, and "" (nil) for any other name. */
  function ColorCode(name: string): (code: string)
    ensures code != "" <==> name in POSSIBLE_COLORS
  {
    if name == "red" then RED_CODE
    else if name == "blue" then BLUE_CODE
    else if name == "green" then GREEN_CODE
    else if name == "yellow" then YELLOW_CODE
    else if name == "cyan" then CYAN_CODE
    else if name == "purple" then PURPLE_CODE
    else ""
  }

  /** `Board::COLORS[name]`: the same table plus white. */
  function BoardColorCode(name: string): (code: string)
    ensures name in POSSIBLE_COLORS ==> code == ColorCode(name)
    ensures code != "" <==> name in POSSIBLE_COLORS || name == "white"
  {
    if name == "white" then RESET else ColorCode(name)
  }

  predicate StartsWith(s: string, prefix: string)
  {
    |prefix| <= |s| && s[..|prefix|] == prefix
  }
}
