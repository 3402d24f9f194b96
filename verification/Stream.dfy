/** The transport underneath: it hands over what it holds in pieces of its own choosing, or
    in pieces laid down beforehand. */
module Stream {
  import opened Bytes

  class Transport {
    var input: seq<byte>     // what reads have yet to deliver
    var output: seq<byte>    // everything written so far
    const pace: nat -> nat   // how much a read brings when so much is left; zero for any amount

    constructor (input: seq<byte>)
      ensures this.input == input && output == []
    {
      this.input, output, pace := input, [], _ => 0;
    }

    constructor Paced(input: seq<byte>, pace: nat -> nat)
      ensures this.input == input && output == [] && this.pace == pace
    {
      this.input, output, this.pace := input, [], pace;
    }

    /** `read`: at least one byte while there is one, at most `len`; nothing at end of file. */
    method Read(len: nat) returns (got: seq<byte>)
      modifies this`input
      ensures old(input) == got + input && |got| <= len
      ensures got == [] <==> len == 0 || old(input) == []
      ensures pace(|old(input)|) > 0 ==> |got| == Min(pace(|old(input)|), Min(len, |old(input)|))
    {
      if len == 0 || input == [] { return []; }
      var most := Min(len, |input|);
      var k: nat :| 1 <= k <= most;
      if pace(|input|) > 0 { k := Min(pace(|input|), most); }
      got, input := input[..k], input[k..];
    }

    /** `readAll`: keeps reading; end of file before `len` bytes is an exception. */
    method ReadAll(len: nat) returns (got: Option<seq<byte>>)
      modifies this`input
      ensures if |old(input)| < len then got == None && input == []
              else got == Some(old(input)[..len]) && input == old(input)[len..]
    {
      var bytes: seq<byte> := [];
      while |bytes| < len
        invariant |bytes| <= len && old(input) == bytes + input
      {
        var more := Read(len - |bytes|);
        if more == [] {
          return None;
        }
        bytes := bytes + more;
      }
      assert old(input)[..len] == bytes;
      return Some(bytes);
    }

    method Write(bytes: seq<byte>)
      modifies this`output
      ensures output == old(output) + bytes
    {
      output := output + bytes;
    }
  }
}
