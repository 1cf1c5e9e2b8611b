/** The `Activity` record: the per-key update counter of the tracking controller. */
module Activities {

  /** `ushort`: an unsigned 16-bit value. */
  const UShortModulus: int := 0x1_0000
  type UShort = x: int | 0 <= x < 0x1_0000

  /** `ItemName` holds the normalised key of the tracked item; `Count` is the number of
      writes to that key, as a `ushort`. */
  datatype Activity = Activity(itemName: string, count: UShort)

  /** The counter a new key starts with. */
  function Started(key: string): (a: Activity)
    ensures a.itemName == key && a.count == 1
  {
    Activity(key, 1)
  }

  /** `Count++` in C#'s default unchecked context: one more, modulo 65536. */
  function Bumped(a: Activity): (b: Activity)
    ensures b.itemName == a.itemName
    ensures b.count == (a.count + 1) % UShortModulus
  {
    a.(count := if a.count == 0xFFFF then 0 else a.count + 1)
  }

  /** A counter at 65535 wraps to 0 on the next write. */
  lemma BumpWrapsAtMaximum(key: string)
    ensures Bumped(Activity(key, 0xFFFF)).count == 0
  {
  }
}
