/** The bounded report reader. */
module Reader {
  import opened Wrappers
  import opened Bytes

  const BUFFER: nat := 65536

  /**
   An open file. Every read hands over some of the next bytes, as many as it likes up to the buffer, nothing exactly at
   the end of the file, or fails.
   */
  class Input {
    var rest: seq<byte>
    ghost var failed: bool  // some read has failed

    constructor (content: seq<byte>)
      ensures rest == content && !failed
    {
      rest, failed := content, false;
    }

    method Read(capacity: nat) returns (r: Result<seq<byte>, string>)
      requires capacity > 0
      modifies this
      ensures r.Success? ==>
                && |r.value| <= capacity
                && old(rest) == r.value + rest
                && (r.value == [] <==> old(rest) == [])
                && failed == old(failed)
      ensures r.Failure? ==> failed
    {
      var broken: bool := *;
      if broken {
        failed := true;
        return Failure("read error");
      }
      var count: nat := if |rest| < capacity then |rest| else capacity;
      if count > 0 {
        count :| 1 <= count <= |rest| && count <= capacity;
      }
      r := Success(rest[..count]);
      rest := rest[count..];
    }
  }

  /** A hasher stands for the concatenation of everything it has been given. */
  class Hasher {
    var input: seq<byte>

    constructor ()
      ensures input == []
    {
      input := [];
    }

    method Update(bytes: seq<byte>)
      modifies this
      ensures input == old(input) + bytes
    {
      input := input + bytes;
    }
  }

  function FirstBytes(content: seq<byte>, n: nat): (r: seq<byte>)
    ensures r <= content && |r| == if |content| < n then |content| else n
  {
    if |content| < n then content else content[..n]
  }

  /** How many more bytes are kept when `kept` bytes are already there (a saturating difference). */
  function Room(limit: u64, kept: nat): nat {
    if kept > limit + 1 then 0 else limit + 1 - kept
  }

  /** Keeps at most one byte more than the limit, but hashes the whole stream. Only a failing read makes it fail. */
  method ReadReport(input: Input, limit: u64) returns (r: Result<(seq<byte>, seq<byte>), string>)
    requires limit < U64_MAX
    modifies input
    ensures r.Success? ==> r.value == (FirstBytes(old(input.rest), limit + 1), old(input.rest)) && input.rest == []
    ensures !old(input.failed) ==> (r.Failure? <==> input.failed)
  {
    var hasher := new Hasher();
    var bytes: seq<byte> := [];
    ghost var content := input.rest;
    var done := false;
    while !done
      invariant fresh(hasher)
      invariant hasher.input + input.rest == content
      invariant bytes == FirstBytes(hasher.input, limit + 1)
      invariant done ==> input.rest == []
      invariant input.failed == old(input.failed)
      decreases |input.rest|, !done
    {
      var chunk :- input.Read(BUFFER);
      if chunk == [] {
        done := true;
      } else {
        KeptGrows(hasher.input, chunk, limit);
        hasher.Update(chunk);
        var remaining := Room(limit, |bytes|);
        bytes := bytes + chunk[..if |chunk| < remaining then |chunk| else remaining];
      }
    }
    assert hasher.input == content;
    r := Success((bytes, hasher.input));
  }

  lemma KeptGrows(before: seq<byte>, chunk: seq<byte>, limit: u64)
    ensures var kept := FirstBytes(before, limit + 1);
            var room := Room(limit, |kept|);
            FirstBytes(before + chunk, limit + 1) == kept + FirstBytes(chunk, room)
  {
  }
}
