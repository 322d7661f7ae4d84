/**
 * Telegram inline keyboards as the bot builds them: rows of buttons, each
 * with a visible label and the callback data sent back when it is pressed.
 */
module Markup {
  datatype Button = Button(text: string, callback: string)

  type Keyboard = seq<seq<Button>>

  /** The buttons of a keyboard, read row by row. */
  function Flatten(rows: Keyboard): seq<Button> {
    if rows == [] then [] else Flatten(rows[..|rows| - 1]) + rows[|rows| - 1]
  }

  lemma FlattenAppend(rows: Keyboard, row: seq<Button>)
    ensures Flatten(rows + [row]) == Flatten(rows) + row
  {
    assert (rows + [row])[..|rows|] == rows;
  }
}
