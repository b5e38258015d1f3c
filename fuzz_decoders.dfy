/**
 * The 4-byte vote records of `fuzzable/src/lib.rs`: a flags byte, the positions of the voter's
 * and of the chosen candidate's names in a table of names, and the number of votes.
 */
module FuzzableDecoder {
  import opened Wrappers
  import opened ElectionTypes
  import opened MachineInts

  const VoteWidth: nat := 4

  /** `mk_id`: the name at position `input`; a position past the table panics. */
  function MkId(input: u8, names: seq<string>): Result<string> {
    if input as nat < |names| then Ok(names[input as nat])
    else Panic("index out of bounds")
  }

  /** `parse_vote`: one record. */
  function ParseVote(data: seq<u8>, names: seq<string>): Result<Vote>
    requires |data| == VoteWidth
  {
    var willingCandidate := data[0] % 2 == 1;  // bit 0 of the flags
    match MkId(data[1], names)
    case Panic(e) => Panic(e)
    case Ok(voterId) =>
      match MkId(data[2], names)
      case Panic(e) => Panic(e)
      case Ok(voteFor) => Ok(Vote(voterId, voteFor, data[3] as nat, willingCandidate))
  }

  /** The votes of the first `count` records, or the panic of the first record that has one. */
  function Decode(data: seq<u8>, names: seq<string>, count: nat): Result<seq<Vote>>
    requires count * VoteWidth <= |data|
  {
    if count == 0 then Ok([])
    else
      match Decode(data, names, count - 1)
      case Panic(e) => Panic(e)
      case Ok(votes) =>
        match ParseVote(data[(count - 1) * VoteWidth..count * VoteWidth], names)
        case Panic(e) => Panic(e)
        case Ok(v) => Ok(votes + [v])
  }

  /** Both names of record `k` are in the table. */
  predicate NamesKnown(data: seq<u8>, names: seq<string>, k: nat)
    requires (k + 1) * VoteWidth <= |data|
  {
    data[k * VoteWidth + 1] as nat < |names| && data[k * VoteWidth + 2] as nat < |names|
  }

  /**
   * Decoding succeeds exactly when every record names two known entries; then vote `k` comes
   * from bytes `4k` to `4k + 3`: willing iff bit 0 of the flags is set, the two names looked up,
   * and at most 255 votes.
   */
  lemma {:induction false} DecodeSpec(data: seq<u8>, names: seq<string>, count: nat)
    requires count * VoteWidth <= |data|
    ensures Decode(data, names, count).Ok? <==> forall k | 0 <= k < count :: NamesKnown(data, names, k)
    ensures Decode(data, names, count).Ok? ==>
      var votes := Decode(data, names, count).value;
      && |votes| == count
      && forall k | 0 <= k < count ::
           var base := k * VoteWidth;
           && NamesKnown(data, names, k)
           && votes[k] == Vote(names[data[base + 1] as nat], names[data[base + 2] as nat],
                               data[base + 3] as nat, data[base] % 2 == 1)
           && votes[k].numberOfVotes < 256
  {
    if count > 0 {
      DecodeSpec(data, names, count - 1);
      var base := (count - 1) * VoteWidth;
      var record := data[base..base + VoteWidth];
      assert record[0] == data[base] && record[1] == data[base + 1];
      assert record[2] == data[base + 2] && record[3] == data[base + 3];
      assert ParseVote(record, names).Ok? <==> NamesKnown(data, names, count - 1);
      assert (forall k | 0 <= k < count :: NamesKnown(data, names, k)) <==>
        (forall k | 0 <= k < count - 1 :: NamesKnown(data, names, k)) && NamesKnown(data, names, count - 1);
    }
  }

  /** Once a record panics, decoding more records gives the same panic. */
  lemma {:induction false} PanicPropagates(data: seq<u8>, names: seq<string>, i: nat, count: nat)
    requires i <= count && count * VoteWidth <= |data|
    requires Decode(data, names, i).Panic?
    ensures Decode(data, names, count) == Decode(data, names, i)
  {
    if i < count {
      PanicPropagates(data, names, i, count - 1);
    }
  }

  /** Only the first `count` records matter: bytes after them are never read. */
  lemma {:induction false} DecodeReadsPrefix(data: seq<u8>, other: seq<u8>, names: seq<string>, count: nat)
    requires count * VoteWidth <= |data| && count * VoteWidth <= |other|
    requires data[..count * VoteWidth] == other[..count * VoteWidth]
    ensures Decode(data, names, count) == Decode(other, names, count)
  {
    if count > 0 {
      var lo, hi := (count - 1) * VoteWidth, count * VoteWidth;
      assert data[..lo] == data[..hi][..lo] && other[..lo] == other[..hi][..lo];
      DecodeReadsPrefix(data, other, names, count - 1);
      assert data[lo..hi] == data[..hi][lo..hi] && other[lo..hi] == other[..hi][lo..hi];
    }
  }

  /** How many whole records are left once `k` of them have been read. */
  lemma RecordsLeft(len: nat, k: nat)
    requires k * VoteWidth <= len
    ensures (k + 1) * VoteWidth == k * VoteWidth + VoteWidth
    ensures k * VoteWidth + VoteWidth <= len <==> k < len / VoteWidth
  {
  }

  /**
   * `mk_votes`: decodes every whole record in order; the `len % 4` trailing bytes are ignored.
   */
  method MkVotes(data: seq<u8>, names: seq<string>) returns (out: Result<seq<Vote>>)
    ensures out == Decode(data, names, |data| / VoteWidth)
  {
    var votes: seq<Vote> := [];
    var i := 0;
    while i + VoteWidth <= |data|
      invariant i == |votes| * VoteWidth && i <= |data|
      invariant Decode(data, names, |votes|) == Ok(votes)
    {
      RecordsLeft(|data|, |votes|);
      match ParseVote(data[i..i + VoteWidth], names) {
        case Panic(e) =>
          assert Decode(data, names, |votes| + 1) == Panic(e);
          PanicPropagates(data, names, |votes| + 1, |data| / VoteWidth);
          return Panic(e);
        case Ok(v) =>
          votes := votes + [v];
      }
      i := i + VoteWidth;
    }
    RecordsLeft(|data|, |votes|);
    out := Ok(votes);
  }

  /** A trailing partial record changes nothing. */
  lemma TrailingBytesIgnored(data: seq<u8>, extra: seq<u8>, names: seq<string>)
    requires |data| % VoteWidth == 0 && |extra| < VoteWidth
    ensures (|data| + |extra|) / VoteWidth == |data| / VoteWidth
    ensures Decode(data + extra, names, |data| / VoteWidth) == Decode(data, names, |data| / VoteWidth)
  {
    var n := |data| / VoteWidth;
    assert (data + extra)[..n * VoteWidth] == data[..n * VoteWidth];
    DecodeReadsPrefix(data + extra, data, names, n);
  }
}

/**
 * The 6-byte vote records of `fuzz/src/main.rs`: three little-endian `u16` fields, the voter's id
 * number, the number of votes and the chosen candidate's id number.
 */
module FuzzDecoder {
  import opened Wrappers
  import opened ElectionTypes
  import opened MachineInts
  import opened HexFormat

  const VoteWidth: nat := 6
  /** Ids print four hexadecimal digits. */
  const IdDigits: nat := 4

  /** `mk_id`: numbers above `0x8000` are voters, the others (`0x8000` included) candidates. */
  function MkId(input: u16): (string, bool) {
    if input > 0x8000 then (FuzzId(true, input as nat, IdDigits), false)
    else (FuzzId(false, input as nat, IdDigits), true)
  }

  /**
   * `parse_u16`: two bytes, least significant first. The source shifts the second byte left by
   * eight bits and ors in the first; their bits do not overlap, so that is this sum.
   */
  function ParseU16(data: seq<u8>): u16
    requires |data| == 2
  {
    (data[0] as int + 0x100 * data[1] as int) as u16
  }

  /** `parse_vote`: one record; only the voter's id decides willingness. */
  function ParseVote(data: seq<u8>): Vote
    requires |data| == VoteWidth
  {
    var id := ParseU16(data[0..2]);
    var numberOfVotes := ParseU16(data[2..4]) as nat;
    var vf := ParseU16(data[4..6]);
    var voter := MkId(id);
    Vote(voter.0, MkId(vf).0, numberOfVotes, voter.1)
  }

  /** A record parser that accepts every six-byte record. */
  ghost predicate ReadsRecords(parse: seq<u8> --> Vote) {
    forall r: seq<u8> | |r| == VoteWidth :: parse.requires(r)
  }

  /** The first `count` records of `data`, each read with `parse`. */
  function DecodeWith(parse: seq<u8> --> Vote, data: seq<u8>, count: nat): seq<Vote>
    requires ReadsRecords(parse) && count * VoteWidth <= |data|
  {
    if count == 0 then []
    else DecodeWith(parse, data, count - 1) + [parse(data[(count - 1) * VoteWidth..count * VoteWidth])]
  }

  /** The votes of the first `count` records. */
  function Decode(data: seq<u8>, count: nat): seq<Vote>
    requires count * VoteWidth <= |data|
  {
    DecodeWith(ParseVote, data, count)
  }

  /** The bytes of a `u16`, least significant first. */
  function U16Bytes(x: u16): seq<u8> {
    [(x % 0x100) as u8, (x / 0x100) as u8]
  }

  /** `parse_u16` reads back the bytes of any `u16`, and those bytes are the only ones that give it. */
  lemma ParseU16RoundTrip(x: u16, data: seq<u8>)
    requires |data| == 2
    ensures ParseU16(U16Bytes(x)) == x
    ensures U16Bytes(ParseU16(data)) == data
  {
    var n := data[0] as int + 0x100 * data[1] as int;
    assert n / 0x100 == data[1] as int && n % 0x100 == data[0] as int;
  }

  /** Different numbers get different ids, and the number can be read back from its id. */
  lemma MkIdInjective(x: u16, y: u16)
    ensures IdNumber(MkId(x).0) == Some(x as nat)
    ensures MkId(x).0 == MkId(y).0 ==> x == y
  {
    Pow16Values();
    IdNumberOfFuzzId(x > 0x8000, x as nat, IdDigits);
    IdNumberOfFuzzId(y > 0x8000, y as nat, IdDigits);
  }

  /**
   * `v` is the vote of the record at `base`: the voter's id from bytes 0-1, the votes from bytes
   * 2-3 and the chosen id from bytes 4-5, each little-endian.
   */
  predicate Layout(data: seq<u8>, base: nat, v: Vote)
    requires base + VoteWidth <= |data|
  {
    var id := (data[base] as int + 0x100 * data[base + 1] as int) as u16;
    var vf := (data[base + 4] as int + 0x100 * data[base + 5] as int) as u16;
    && v.voterId == MkId(id).0
    && v.willingCandidate == (id <= 0x8000)
    && v.voteFor == MkId(vf).0
    && v.numberOfVotes == data[base + 2] as nat + 0x100 * data[base + 3] as nat
  }

  lemma RecordLayout(data: seq<u8>, base: nat)
    requires base + VoteWidth <= |data|
    ensures Layout(data, base, ParseVote(data[base..base + VoteWidth]))
  {
    var record := data[base..base + VoteWidth];
    assert record[0] == data[base] && record[1] == data[base + 1];
    assert record[2] == data[base + 2] && record[3] == data[base + 3];
    assert record[4] == data[base + 4] && record[5] == data[base + 5];
  }

  lemma {:induction false} DecodeLength(parse: seq<u8> --> Vote, data: seq<u8>, count: nat)
    requires ReadsRecords(parse) && count * VoteWidth <= |data|
    ensures |DecodeWith(parse, data, count)| == count
  {
    if count > 0 {
      DecodeLength(parse, data, count - 1);
    }
  }

  lemma {:induction false} DecodeAt(parse: seq<u8> --> Vote, data: seq<u8>, count: nat, k: nat)
    requires ReadsRecords(parse) && count * VoteWidth <= |data| && k < count
    ensures |DecodeWith(parse, data, count)| == count
    ensures DecodeWith(parse, data, count)[k] == parse(data[k * VoteWidth..k * VoteWidth + VoteWidth])
  {
    DecodeLength(parse, data, count);
    if k < count - 1 {
      DecodeAt(parse, data, count - 1, k);
      assert DecodeWith(parse, data, count)[k] == DecodeWith(parse, data, count - 1)[k];
    }
  }

  /** Vote `k` comes from bytes `6k` to `6k + 5`, laid out as `Layout` says. */
  lemma DecodeSpec(data: seq<u8>, count: nat)
    requires count * VoteWidth <= |data|
    ensures |Decode(data, count)| == count
    ensures forall k | 0 <= k < count :: Layout(data, k * VoteWidth, Decode(data, count)[k])
  {
    DecodeLength(ParseVote, data, count);
    forall k | 0 <= k < count
      ensures Layout(data, k * VoteWidth, Decode(data, count)[k])
    {
      DecodeAt(ParseVote, data, count, k);
      RecordLayout(data, k * VoteWidth);
    }
  }

  /** Encoding a record and decoding it gives the vote, and its id numbers back. */
  lemma RecordRoundTrip(id: u16, votes: u16, vf: u16)
    ensures |U16Bytes(id) + U16Bytes(votes) + U16Bytes(vf)| == VoteWidth
    ensures var v := ParseVote(U16Bytes(id) + U16Bytes(votes) + U16Bytes(vf));
      && v.numberOfVotes == votes as nat
      && IdNumber(v.voterId) == Some(id as nat)
      && IdNumber(v.voteFor) == Some(vf as nat)
      && v.willingCandidate == (id <= 0x8000)
  {
    var r := U16Bytes(id) + U16Bytes(votes) + U16Bytes(vf);
    assert r[0..2] == U16Bytes(id) && r[2..4] == U16Bytes(votes) && r[4..6] == U16Bytes(vf);
    ParseU16RoundTrip(id, [0, 0]);
    ParseU16RoundTrip(votes, [0, 0]);
    ParseU16RoundTrip(vf, [0, 0]);
    MkIdInjective(id, id);
    MkIdInjective(vf, vf);
  }

  /** Reads every whole record of `data` with `parse`, in order, and ignores trailing bytes. */
  method MkVotesWith(parse: seq<u8> --> Vote, data: seq<u8>) returns (out: seq<Vote>)
    requires ReadsRecords(parse)
    ensures out == DecodeWith(parse, data, |data| / VoteWidth)
  {
    out := [];
    var i := 0;
    while i + VoteWidth <= |data|
      invariant i == |out| * VoteWidth && i <= |data|
      invariant out == DecodeWith(parse, data, |out|)
    {
      out := out + [parse(data[i..i + VoteWidth])];
      i := i + VoteWidth;
    }
  }

  /** `mk_votes`: decodes every whole record in order with `parse_vote`. */
  method MkVotes(data: seq<u8>) returns (out: seq<Vote>)
    ensures out == Decode(data, |data| / VoteWidth)
  {
    out := MkVotesWith(ParseVote, data);
  }
}

/**
 * The structured records of `fuzz/fuzz_targets/fuzz_target_1.rs`: a `u8` voter number, a `u8`
 * chosen number and a `u16` number of votes.
 */
module FuzzTargetDecoder {
  import opened Wrappers
  import opened ElectionTypes
  import opened MachineInts
  import opened HexFormat

  datatype VoteBin = VoteBin(voterId: u8, voteFor: u8, votes: u16)

  /** Ids print two hexadecimal digits. */
  const IdDigits: nat := 2

  /** `mk_id`: numbers above `0x80` are voters, the others (`0x80` included) candidates. */
  function MkId(input: u8): (string, bool) {
    if input > 0x80 then (FuzzId(true, input as nat, IdDigits), false)
    else (FuzzId(false, input as nat, IdDigits), true)
  }

  /** `parse_vote`: only the voter's number decides willingness. */
  function ParseVote(data: VoteBin): Vote {
    var voter := MkId(data.voterId);
    Vote(voter.0, MkId(data.voteFor).0, data.votes as nat, voter.1)
  }

  /** `mk_votes`: every record in order. */
  function MkVotes(data: seq<VoteBin>): seq<Vote> {
    seq(|data|, i requires 0 <= i < |data| => ParseVote(data[i]))
  }

  /** The record a vote came from, read back from its ids and its number of votes. */
  function Unparse(v: Vote): Option<VoteBin> {
    match (IdNumber(v.voterId), IdNumber(v.voteFor))
    case (Some(id), Some(vf)) =>
      if id < 256 && vf < 256 && v.numberOfVotes < 0x1_0000
      then Some(VoteBin(id as u8, vf as u8, v.numberOfVotes as u16))
      else None
    case _ => None
  }

  /** Different numbers get different ids, and the number can be read back from its id. */
  lemma MkIdInjective(x: u8, y: u8)
    ensures IdNumber(MkId(x).0) == Some(x as nat)
    ensures MkId(x).0 == MkId(y).0 ==> x == y
  {
    Pow16Values();
    IdNumberOfFuzzId(x > 0x80, x as nat, IdDigits);
    IdNumberOfFuzzId(y > 0x80, y as nat, IdDigits);
  }

  /** Every record can be read back from its vote, so no two records give the same vote. */
  lemma UnparseParseVote(data: VoteBin)
    ensures Unparse(ParseVote(data)) == Some(data)
    ensures ParseVote(data).willingCandidate <==> data.voterId <= 0x80
  {
    MkIdInjective(data.voterId, data.voterId);
    MkIdInjective(data.voteFor, data.voteFor);
  }

  /** `mk_votes` keeps the length and the order, and loses nothing of the records. */
  lemma MkVotesRoundTrip(data: seq<VoteBin>)
    ensures |MkVotes(data)| == |data|
    ensures forall i | 0 <= i < |data| :: Unparse(MkVotes(data)[i]) == Some(data[i])
  {
    forall i | 0 <= i < |data| ensures Unparse(MkVotes(data)[i]) == Some(data[i]) {
      UnparseParseVote(data[i]);
    }
  }
}
