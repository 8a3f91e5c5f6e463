/**
 * The older node directory of ConfigLoader.java: each line of nodes.config
 * is `id ip port`, and a node is only its address. This is the directory
 * the ping/ack peer (UDPPeerMod.java) reads.
 */
module LegacyDirectory {
  import opened JavaText
  import opened ConfigLines

  datatype Address = Address(ip: string, port: int)

  /**
   * One line: split on `\s+` without a limit; anything but exactly three
   * tokens is dropped silently, and an id or port that is not an int is
   * logged and dropped.
   */
  function ParseLine(line: string): (r: LineResult<Address>)
    ensures r.Ignored? <==> IsBlankOrComment(line)
    ensures r.Entry? ==> MinInt32 <= r.id <= MaxInt32 && MinInt32 <= r.info.port <= MaxInt32
  {
    var t := Trim(line);
    if t == [] || t[0] == '#' then Ignored
    else
      var parts := SplitSpaces(t, 0);
      if |parts| != 3 then Rejected
      else
        var id := ParseInt(parts[0]);
        var port := ParseInt(parts[2]);
        if id.None? || port.None? then Rejected
        else Entry(id.value, Address(parts[1], port.value))
  }

  /** A trimmed line that splits into three words splits into three single, non-empty words. */
  lemma ThreeWords(t: string)
    requires t != [] && !IsTrimmable(t[0]) && !IsTrimmable(t[|t| - 1])
    requires |SplitSpaces(t, 0)| == 3
    ensures forall k :: 0 <= k < 3 ==> SplitSpaces(t, 0)[k] != "" && NoSpace(SplitSpaces(t, 0)[k])
  {
    SpaceIsTrimmable(t[0]);
    SpaceIsTrimmable(t[|t| - 1]);
    var parts := SplitSpaces(t, 0);
    var pieces := SpacePieces(t, 0);
    SpacePiecesNonEmpty(t, 0);
    assert FirstSpace(t) < |t|;
    assert parts == DropTrailingEmpty(pieces);
    assert forall k :: 0 <= k < |parts| ==> parts[k] == pieces[k];
  }

  /**
   * An accepted line is exactly three whitespace-separated words; its ip is
   * the middle word, taken verbatim, and its port is the int the last word
   * spells.
   */
  lemma ParseLineThreeWords(line: string)
    ensures ParseLine(line).Entry? ==>
      var t := Trim(line); var parts := SplitSpaces(t, 0);
      |parts| == 3 && (forall k :: 0 <= k < 3 ==> parts[k] != "" && NoSpace(parts[k]))
      && ParseLine(line).info.ip == parts[1]
      && ParseInt(parts[2]) == Some(ParseLine(line).info.port)
      && ParseInt(parts[0]) == Some(ParseLine(line).id)
  {
    if ParseLine(line).Entry? {
      var t := Trim(line);
      var parts := SplitSpaces(t, 0);
      assert t != [] && t[0] != '#' && |parts| == 3;
      ThreeWords(t);
    }
  }

  /** A well-formed line `id ip port` is accepted with exactly that id and address. */
  lemma ParseLineRoundTrip(id: int, ip: string, port: int)
    requires MinInt32 <= id <= MaxInt32 && MinInt32 <= port <= MaxInt32
    requires ip != "" && NoSpace(ip)
    ensures ParseLine(IntToString(id) + " " + ip + " " + IntToString(port)) == Entry(id, Address(ip, port))
  {
    var i, p := IntToString(id), IntToString(port);
    IntToStringIsWord(id);
    IntToStringIsWord(port);
    ParseIntOfIntToString(id);
    ParseIntOfIntToString(port);
    var words := [i, ip, p];
    JoinThree(i, ip, p);
    WordsLine(words);
    SplitSpacesJoin(words, 0);
  }

  /** A line of the newer format, with a status word after the port, has a fourth word and is rejected. */
  lemma FourWordLineRejected(id: int, ip: string, port: int, status: string)
    requires ip != "" && NoSpace(ip) && status != "" && NoSpace(status)
    requires !IsTrimmable(status[|status| - 1])
    ensures ParseLine(IntToString(id) + " " + ip + " " + IntToString(port) + " " + status).Rejected?
  {
    var i, p := IntToString(id), IntToString(port);
    IntToStringIsWord(id);
    IntToStringIsWord(port);
    var words := [i, ip, p, status];
    JoinFour(i, ip, p, status);
    WordsLine(words);
    SplitSpacesJoin(words, 0);
  }

  class ConfigLoader {
    var nodes: map<int, Address>

    /** `new ConfigLoader()`, with the lines of nodes.config handed in instead of read from disk. */
    constructor (lines: seq<string>)
      ensures nodes == Load(ParseLine, map[], lines)
    {
      nodes := map[];
      new;
      LoadConfig(lines);
    }

    /** `loadConfig`: a `while` loop over the lines, one `put` per valid line. */
    method LoadConfig(lines: seq<string>)
      modifies this
      ensures nodes == Load(ParseLine, old(nodes), lines)
    {
      var i := 0;
      while i < |lines|
        invariant 0 <= i <= |lines|
        invariant nodes == Load(ParseLine, old(nodes), lines[..i])
      {
        assert lines[..i + 1][..i] == lines[..i];
        var parsed := ParseLine(lines[i]);
        if parsed.Entry? {
          nodes := nodes[parsed.id := parsed.info];
        }
        i := i + 1;
      }
      assert lines[..|lines|] == lines;
    }

    /** `getNodes`: the live map itself. */
    function GetNodes(): (r: map<int, Address>)
      reads this
      ensures r == nodes
    {
      nodes
    }
  }
}
