/**
 * The layered keymap: each layer lists one key per matrix position, in
 * row-major order, and a press of (row, col) on a layer sends the entry at
 * row * MATRIX_COLS + col.
 */
module Keymap {
  import opened Wrappers
  import opened Matrix

  const MATRIX_ROWS: nat := 3
  const MATRIX_COLS: nat := 3

  /** A key object of the keyboard library, known here only by its name. */
  datatype Keycode = Keycode(name: string)

  const AUDIO_VOL_UP: Keycode := Keycode("AUDIO_VOL_UP")
  const AUDIO_VOL_DOWN: Keycode := Keycode("AUDIO_VOL_DOWN")
  const AUDIO_MUTE: Keycode := Keycode("AUDIO_MUTE")

  /** One layer: a key per matrix position. */
  type Layer = seq<Keycode>

  /** Every layer has exactly one entry per matrix position. */
  predicate WellFormed(keymap: seq<Layer>)
  {
    forall l :: 0 <= l < |keymap| ==> |keymap[l]| == MATRIX_ROWS * MATRIX_COLS
  }

  /** The position lies on the matrix. */
  predicate OnMatrix(k: Key)
  {
    k.row < MATRIX_ROWS && k.col < MATRIX_COLS
  }

  /** The position of a key within a layer; row and column can be read back from it. */
  function KeyIndex(k: Key): (i: nat)
    requires OnMatrix(k)
    ensures i < MATRIX_ROWS * MATRIX_COLS
    ensures i / MATRIX_COLS == k.row && i % MATRIX_COLS == k.col
  {
    k.row * MATRIX_COLS + k.col
  }

  /** Distinct matrix positions use distinct layer entries. */
  lemma KeyIndexInjective(a: Key, b: Key)
    requires OnMatrix(a) && OnMatrix(b) && KeyIndex(a) == KeyIndex(b)
    ensures a == b
  {
    assert a.row == KeyIndex(a) / MATRIX_COLS && b.row == KeyIndex(b) / MATRIX_COLS;
  }

  /**
   * The key a press of `k` sends on `layer`: nothing when the layer is not in
   * the keymap, otherwise the layer's entry for that position.
   */
  function Resolve(keymap: seq<Layer>, layer: nat, k: Key): (r: Option<Keycode>)
    requires WellFormed(keymap) && OnMatrix(k)
    ensures r.None? <==> layer >= |keymap|
    ensures r.Some? ==> r.value == keymap[layer][KeyIndex(k)]
  {
    if layer < |keymap| then Some(keymap[layer][KeyIndex(k)]) else None
  }

  /** The firmware's keymap: a single layer of media and brightness keys and three Discord shortcuts. */
  const KEYMAP: seq<Layer> := [
    [Keycode("MEDIA_PREV_TRACK"), Keycode("MEDIA_PLAY_PAUSE"), Keycode("MEDIA_NEXT_TRACK"),
     Keycode("BRIGHTNESS_DOWN"), Keycode("NO"), Keycode("BRIGHTNESS_UP"),
     Keycode("LCTRL(LALT(M))"), Keycode("LCTRL(LALT(D))"), Keycode("LCTRL(LALT(SLASH))")]
  ]

  /**
   * The keymap has one well-formed layer: the centre key sends the empty
   * key, the bottom-right key the Discord shortcut, and layer 1 resolves nothing.
   */
  lemma KeymapLayout()
    ensures WellFormed(KEYMAP) && |KEYMAP| == 1
    ensures Resolve(KEYMAP, 0, Key(1, 1)) == Some(Keycode("NO"))
    ensures Resolve(KEYMAP, 0, Key(2, 2)) == Some(Keycode("LCTRL(LALT(SLASH))"))
    ensures Resolve(KEYMAP, 1, Key(0, 0)) == None
  {
  }
}
