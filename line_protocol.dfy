/**
 * Text handling of the line protocol in IoTropolisUnitConnection.cpp: trimming
 * a received line (QByteArray::trimmed), splitting it at the first space into
 * a command and a payload, and normalising the peer address.
 */
module LineProtocol {

  /** The characters QByteArray::trimmed removes: space, \t, \n, \v, \f and \r. */
  predicate IsSpace(c: char)
  {
    c == ' ' || c == '\t' || c == '\n' || c == '\r' || c as int == 11 || c as int == 12
  }

  /** Drops leading whitespace; what is left is a suffix of `s`. */
  function TrimStart(s: string): (r: string)
    ensures |r| <= |s| && r == s[|s| - |r|..]
    ensures forall i :: 0 <= i < |s| - |r| ==> IsSpace(s[i])
    ensures r != [] ==> !IsSpace(r[0])
  {
    if s != [] && IsSpace(s[0]) then TrimStart(s[1..]) else s
  }

  /** Drops trailing whitespace; what is left is a prefix of `s`. */
  function TrimEnd(s: string): (r: string)
    ensures |r| <= |s| && r == s[..|r|]
    ensures forall i :: |r| <= i < |s| ==> IsSpace(s[i])
    ensures r != [] ==> !IsSpace(r[|r| - 1])
  {
    if s != [] && IsSpace(s[|s| - 1]) then TrimEnd(s[..|s| - 1]) else s
  }

  /** QByteArray::trimmed: whitespace removed from both ends. */
  function Trim(s: string): (r: string)
    ensures (r == []) <==> (forall i :: 0 <= i < |s| ==> IsSpace(s[i]))
    ensures r != [] ==> !IsSpace(r[0]) && !IsSpace(r[|r| - 1])
    ensures (s == [] || (!IsSpace(s[0]) && !IsSpace(s[|s| - 1]))) ==> r == s
  {
    var t := TrimStart(s);
    var r := TrimEnd(t);
    assert r != [] ==> r[0] == t[0];
    r
  }

  /**
   * The trimmed line is the slice of `s` left after dropping its leading
   * whitespace (the first `k` characters) and its trailing whitespace.
   */
  lemma TrimRemovesEnds(s: string) returns (k: nat)
    ensures k + |Trim(s)| <= |s| && Trim(s) == s[k..k + |Trim(s)|]
    ensures forall i :: 0 <= i < k ==> IsSpace(s[i])
    ensures forall i :: k + |Trim(s)| <= i < |s| ==> IsSpace(s[i])
  {
    k := |s| - |TrimStart(s)|;
  }

  /** Trimming a trimmed line changes nothing. */
  lemma TrimIdempotent(s: string)
    ensures Trim(Trim(s)) == Trim(s)
  {
  }

  /** QByteArray::indexOf(' '): the index of the first space, or -1 when there is none. */
  function IndexOfSpace(s: string): (k: int)
    ensures -1 <= k < |s|
    ensures k == -1 <==> ' ' !in s
    ensures k >= 0 ==> s[k] == ' ' && ' ' !in s[..k]
  {
    if s == [] then -1
    else if s[0] == ' ' then 0
    else
      var k := IndexOfSpace(s[1..]);
      if k == -1 then -1
      else
        assert s[..k + 1] == [s[0]] + s[1..][..k];
        k + 1
  }

  /**
   * The split of IoTropolisUnitConnection::onReadyRead: when the first space
   * is at a positive index, the command is the text before it and the payload
   * everything after it; otherwise the whole line is the command and the
   * payload is empty.
   */
  function SplitCommand(line: string): (r: (string, string))
    ensures ' ' !in line ==> r == (line, "")
    ensures line != [] && line[0] == ' ' ==> r == (line, "")
    ensures ' ' in line && line[0] != ' ' ==>
              r.0 != [] && ' ' !in r.0 && line == r.0 + " " + r.1
  {
    var spaceIdx := IndexOfSpace(line);
    if spaceIdx > 0 then
      assert line == line[..spaceIdx] + " " + line[spaceIdx + 1..];
      (line[..spaceIdx], line[spaceIdx + 1..])
    else (line, "")
  }

  /** A trimmed, non-empty line splits into a non-empty command with no space in it. */
  lemma SplitTrimmed(raw: string)
    requires Trim(raw) != []
    ensures SplitCommand(Trim(raw)).0 != [] && ' ' !in SplitCommand(Trim(raw)).0
    ensures ' ' in Trim(raw) ==>
              Trim(raw) == SplitCommand(Trim(raw)).0 + " " + SplitCommand(Trim(raw)).1
    ensures ' ' !in Trim(raw) ==> SplitCommand(Trim(raw)) == (Trim(raw), "")
  {
    var line := Trim(raw);
    assert !IsSpace(line[0]);
  }

  /** A command followed by a space and a payload splits back into that command and payload. */
  lemma {:induction false} SplitJoin(command: string, payload: string)
    requires command != [] && ' ' !in command
    ensures SplitCommand(command + " " + payload) == (command, payload)
  {
    var line := command + " " + payload;
    assert line[..|command|] == command;
    assert ' ' in line by { assert line[|command|] == ' '; }
    assert line[|command| + 1..] == payload;
  }

  /** The prefix QHostAddress::toString gives an IPv4-mapped IPv6 address. */
  const MappedPrefix: string := "::ffff:"

  /** IoTropolisUnitConnection::ipAddress: drops a leading "::ffff:" and keeps any other address as it is. */
  function StripMappedPrefix(address: string): (r: string)
    ensures MappedPrefix <= address ==> MappedPrefix + r == address
    ensures !(MappedPrefix <= address) ==> r == address
  {
    if |address| >= 7 && address[..7] == MappedPrefix then address[7..] else address
  }

  /** Exactly the seven characters of the prefix are removed from a mapped address. */
  lemma StripMapped(ipv4: string)
    ensures StripMappedPrefix(MappedPrefix + ipv4) == ipv4
  {
    assert (MappedPrefix + ipv4)[..7] == MappedPrefix;
  }

  /** Only one prefix is stripped, so the normalisation is not idempotent. */
  lemma StripOnlyOnce()
    ensures StripMappedPrefix(MappedPrefix + MappedPrefix + "1") == MappedPrefix + "1"
    ensures StripMappedPrefix(MappedPrefix + "1") == "1"
  {
    StripMapped(MappedPrefix + "1");
    assert MappedPrefix + MappedPrefix + "1" == MappedPrefix + (MappedPrefix + "1");
    StripMapped("1");
  }
}
