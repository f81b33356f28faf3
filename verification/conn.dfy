/** A connection as its handler sees it. */
module Conns {
  import opened Words
  import opened Outcomes

  datatype ReadError = EOF | UnexpectedEOF | InvalidLength | BadMagic | BadVersion | BadCount | BadArea

  /** Reading exactly `n` bytes: what comes back, and what is left of the input. */
  function Take(input: seq<byte>, n: nat): (Result<seq<byte>, ReadError>, seq<byte>) {
    if n <= |input| then (Ok(input[..n]), input[n..])
    else if input == [] then (Err(EOF), [])
    else (Err(UnexpectedEOF), [])
  }

  class Conn {
    /** Bytes the peer will still have sent when it closes its side. */
    var input: seq<byte>
    /** What has been written, one entry per write. */
    var output: seq<seq<byte>>
    /** How many more writes will succeed. */
    var credit: nat

    constructor (input: seq<byte>, credit: nat)
      ensures this.input == input && this.output == [] && this.credit == credit
    {
      this.input, this.output, this.credit := input, [], credit;
    }

    method ReadFull(n: nat) returns (r: Result<seq<byte>, ReadError>)
      modifies this`input
      ensures (r, input) == Take(old(input), n)
    {
      if n <= |input| {
        r := Ok(input[..n]);
        input := input[n..];
      } else {
        r := Err(if input == [] then EOF else UnexpectedEOF);
        input := [];
      }
    }

    method Write(bytes: seq<byte>) returns (ok: bool)
      modifies this`output, this`credit
      ensures ok == (old(credit) > 0)
      ensures output == if ok then old(output) + [bytes] else old(output)
      ensures credit == if ok then old(credit) - 1 else 0
    {
      ok := credit > 0;
      if ok {
        output, credit := output + [bytes], credit - 1;
      }
    }
  }
}
