/** Result and option types shared by every module of the model. */
module Common {

  datatype Option<+T> = None | Some(value: T) {
    function GetOr(default: T): T {
      if Some? then value else default
    }
  }

  /** How a configuration write ends.  `BadRequest`, `NotFound`, `Unprocessable` and
      `Conflict` are refusals made before anything is written; `Redis` is a failed
      database call, `Internal` a failed command of a routing daemon. */
  datatype WriteResult = Done | BadRequest | NotFound | Unprocessable | Conflict | Redis | Internal

  const U64_MAX: nat := 0xffff_ffff_ffff_ffff

  function Min(a: int, b: int): int {
    if a <= b then a else b
  }

  function Max(a: int, b: int): int {
    if a <= b then b else a
  }

  /** Later maps overwrite earlier ones. */
  function Merge<K, V>(maps: seq<map<K, V>>): map<K, V>
    decreases |maps|
  {
    if maps == [] then map[] else Merge(maps[..|maps| - 1]) + maps[|maps| - 1]
  }

  /** What one vtysh session does: the text it shows, None when it fails to; and whether it
      takes the whole batch of commands or reports failure after the first few. */
  datatype Vtysh = Vtysh(shown: Option<string>, stops: Option<nat>)

  function Taken<T>(cmds: seq<T>, stops: Option<nat>): seq<T> {
    if stops.Some? && stops.value < |cmds| then cmds[..stops.value] else cmds
  }
}
