/** The reader under a buffer: it hands out its bytes in pieces of any size, with any errors. */
module ByteSource {
  import opened Options
  import opened Utf8
  import opened Buffers

  datatype Error =
    | Eof
    | NoProgress
    | TooLong
    | NegativeAdvance
    | AdvanceTooFar
    | BufferFull
    | NegativeCount
    | InvalidUnreadByte
    | Other(code: int)

  /** How one Read goes: at most `n` bytes; whether it tells the end with the last bytes; whether it fails. */
  datatype Response = Response(n: nat, eager: bool, fail: Option<int>)

  const MAX_EMPTY_READS := 100

  /** What a Read with room for `room` bytes returns. */
  function Reply(script: seq<Response>, data: Bytes, room: nat): (r: (nat, Option<Error>))
    ensures r.0 <= room && r.0 <= |data|
  {
    var limit := if script != [] && script[0].n < room then script[0].n else room;
    var n := if limit < |data| then limit else |data|;
    var eager := if script == [] then data == [] else script[0].eager;
    (n, if script != [] && script[0].fail.Some? then Some(Other(script[0].fail.value))
        else if n == |data| && eager then Some(Eof) else None)
  }

  class Source {
    var data: Bytes
    var script: seq<Response>
    /** The bytes handed out so far. */
    ghost var given: Bytes
    /** How many reads in a row have given nothing. */
    ghost var idle: nat
    /** The most of them. */
    ghost var longestIdle: nat
    /** Whether a read has told the end together with bytes. */
    ghost var early: bool
    /** Whether some read has failed. */
    ghost var failed: bool
    /** The errors that were told, the end among them. */
    ghost var told: set<Error>

    constructor (data: Bytes, script: seq<Response>)
      ensures this.data == data && this.script == script && given == []
      ensures idle == 0 && longestIdle == 0 && !failed && !early && told == {}
    {
      this.data, this.script, given, idle, longestIdle := data, script, [], 0, 0;
      failed, early, told := false, false, {};
    }

    /** All there ever is to read. */
    ghost function All(): Bytes
      reads this
    {
      given + data
    }

    /** Takes the next response: how much at most, whether the end would be told, and the failure. */
    method Next(room: nat) returns (limit: nat, eager: bool, err: Option<Error>)
      modifies this`script, this`failed
      ensures limit == if old(script) != [] && old(script)[0].n < room then old(script)[0].n else room
      ensures eager == if old(script) == [] then data == [] else old(script)[0].eager
      ensures err == if old(script) != [] &&
              old(script)[0].fail.Some? then Some(Other(old(script)[0].fail.value)) else None
      ensures script == if old(script) == [] then [] else old(script)[1..]
      ensures (err.Some? ==> failed) && (old(failed) ==> failed)
    {
      limit, eager, err := room, data == [], None;
      if script != [] {
        if script[0].n < limit {
          limit := script[0].n;
        }
        eager := script[0].eager;
        if script[0].fail.Some? {
          err := Some(Other(script[0].fail.value));
          failed := true;
        }
        script := script[1..];
      }
    }

    /** Hands out `n` bytes. */
    method Hand(b: array<Byte>, at: nat, n: nat)
      requires at + n <= b.Length && n <= |data|
      modifies this`data, this`given, this`idle, this`longestIdle, b
      ensures b[..at] == old(b[..at]) && b[at..at + n] == old(data)[..n]
      ensures given == old(given) + b[at..at + n] && data == old(data)[n..] && All() == old(All())
      ensures idle == if n > 0 then 0 else old(idle) + 1
      ensures longestIdle >= idle && longestIdle >= old(longestIdle)
    {
      var piece := data[..n];
      Put(b, at, piece);
      assert b[..at] == b[..][..at] && b[at..at + n] == b[..][at..at + n] == piece;
      assert given + data == (given + piece) + data[n..];
      data, given := data[n..], given + piece;
      idle := if n > 0 then 0 else idle + 1;
      longestIdle := if idle > longestIdle then idle else longestIdle;
    }

    /** Reads into `b` from `at` on; what is in `b` after the bytes read is not said. */
    method Read(b: array<Byte>, at: nat) returns (n: nat, err: Option<Error>)
      requires at <= b.Length
      modifies this, b
      ensures at + n <= b.Length && n <= |old(data)| && |data| == |old(data)| - n
      ensures b[..at] == old(b[..at]) && b[at..at + n] == old(data)[..n]
      ensures given == old(given) + b[at..at + n] && All() == old(All())
      ensures (n, err) == Reply(old(script), old(data), b.Length - at)
      ensures script == if old(script) == [] then [] else old(script)[1..]
      ensures old(script) == [] ==> (err == None || err == Some(Eof)) && (n > 0 || err != None || at == b.Length)
      ensures err == Some(Eof) ==> data == []
      ensures early == (old(early) || (n > 0 && err == Some(Eof)))
      ensures err.Some? ==> err.value.Eof? || (err.value.Other? && failed)
      ensures (old(failed) ==> failed) && told == old(told) + (if err.Some? then {err.value} else {})
      ensures idle == if n > 0 then 0 else old(idle) + 1
      ensures longestIdle >= idle && longestIdle >= old(longestIdle)
    {
      var limit, eager;
      limit, eager, err := Next(b.Length - at);
      n := if limit < |data| then limit else |data|;
      Hand(b, at, n);
      if err == None && data == [] && eager {
        err := Some(Eof);
      }
      early := early || (n > 0 && err == Some(Eof));
      told := told + if err.Some? then {err.value} else {};
    }
  }
}
