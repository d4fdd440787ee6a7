/** The array and string built-ins the adapters use: `Array(n).fill(x)`,
    `reverse()` and `padStart`. */
module JsSequences {

  /** `Array(n).fill(x)`: n copies of x. */
  function Fill<T>(n: nat, x: T): seq<T> {
    seq(n, _ => x)
  }

  /** `reverse()`: the same elements, last first. */
  function Reverse<T>(s: seq<T>): (r: seq<T>)
    ensures |r| == |s|
    ensures forall i :: 0 <= i < |s| ==> r[i] == s[|s| - 1 - i]
  {
    if s == [] then [] else Reverse(s[1..]) + [s[0]]
  }

  /** `s.padStart(target, c)` with a one-character filler: c repeated in front up
      to `target` characters; a string already that long is returned as it is. */
  function PadStart(s: string, target: int, c: char): string {
    if target <= |s| then s else Fill(target - |s|, c) + s
  }
}
