/** Intrusive tree elements: a key and the link fields of RB_ENTRY and SPLAY_ENTRY. */
module Elements {
  datatype Color = Red | Black

  class Elm {
    const key: int
    // RB_ENTRY
    var left: Elm?
    var right: Elm?
    var parent: Elm?
    var color: Color
    // SPLAY_ENTRY
    var spLeft: Elm?
    var spRight: Elm?

    constructor (key: int)
      ensures this.key == key
    {
      this.key := key;
      left, right, parent, color := null, null, null, Black;
      spLeft, spRight := null, null;
    }
  }
}
