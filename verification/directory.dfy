/**
 * The node directory of Client/ConfigLoader.java: a map from node id to
 * `NodeInfo` (ip, port, status, files), filled once from nodes.config and
 * afterwards changed only through `setNodeStatus` and `setNodeFiles`, which
 * are no-ops for an unknown id. The server, client and peer components all
 * use this shape of `NodeInfo`.
 */
module Directory {
  import opened JavaText
  import opened ConfigLines

  const Online: string := "Online"
  const Offline: string := "Offline"

  datatype NodeInfo = NodeInfo(ip: string, port: int, status: string, files: seq<string>)

  /**
   * One line of nodes.config: `id ip port status [files]`, split on `\s+`
   * with limit 5 so that the fifth piece is the rest of the line, which is
   * then split on ','. Fewer than four pieces, or an id or port that is not
   * an int, rejects the line.
   */
  function ParseLine(line: string): (r: LineResult<NodeInfo>)
    ensures r.Ignored? <==> IsBlankOrComment(line)
    ensures r.Entry? ==> MinInt32 <= r.id <= MaxInt32 && MinInt32 <= r.info.port <= MaxInt32
  {
    var t := Trim(line);
    if t == [] || t[0] == '#' then Ignored
    else
      var parts := SplitSpaces(t, 5);
      if |parts| < 4 then Rejected
      else
        var id := ParseInt(parts[0]);
        var port := ParseInt(parts[2]);
        if id.None? || port.None? then Rejected
        else
          var files := if |parts| == 5 then Split(parts[4], ',') else [];
          Entry(id.value, NodeInfo(parts[1], port.value, parts[3], files))
  }

  /**
   * An accepted line's ip and status are single non-empty words of the line
   * (its second and fourth tokens): the limit of 5 never glues them to a
   * neighbour.
   */
  lemma ParseLineTokens(line: string)
    ensures ParseLine(line).Entry? ==>
      var info := ParseLine(line).info;
      info.ip != "" && NoSpace(info.ip) && info.status != "" && NoSpace(info.status)
  {
    if ParseLine(line).Entry? {
      var t := Trim(line);
      SpaceIsTrimmable(t[0]);
      SpaceIsTrimmable(t[|t| - 1]);
      if FirstSpace(t) < |t| {
        SpacePiecesNonEmpty(t, 5);
      }
    }
  }

  /** The fields of a well-formed line of four or five words, one space apart. */
  lemma ParseWords(words: seq<string>)
    requires 4 <= |words| <= 5 && SpaceSplittable(words, 5)
    requires words[0][0] != '#' && !IsTrimmable(words[0][0])
    requires !IsTrimmable(words[|words| - 1][|words[|words| - 1]| - 1])
    requires ParseInt(words[0]).Some? && ParseInt(words[2]).Some?
    ensures ParseLine(Join(' ', words)) ==
      Entry(ParseInt(words[0]).value,
            NodeInfo(words[1], ParseInt(words[2]).value, words[3], if |words| == 5 then Split(words[4], ',') else []))
  {
    WordsLine(words);
    SplitSpacesJoin(words, 5);
  }

  /** Five words, the last of which may hold spaces, give the fields of a line with a file list. */
  lemma ParseFiveWords(a: string, b: string, c: string, d: string, e: string)
    requires a != "" && NoSpace(a) && a[0] != '#' && !IsTrimmable(a[0])
    requires b != "" && NoSpace(b) && c != "" && NoSpace(c) && d != "" && NoSpace(d)
    requires e != "" && !IsSpace(e[0]) && !IsTrimmable(e[|e| - 1])
    requires ParseInt(a).Some? && ParseInt(c).Some?
    ensures ParseLine(a + " " + b + " " + c + " " + d + " " + e)
              == Entry(ParseInt(a).value, NodeInfo(b, ParseInt(c).value, d, Split(e, ',')))
  {
    var words := [a, b, c, d, e];
    assert SpaceSplittable(words, 5);
    JoinFive(a, b, c, d, e);
    ParseWords(words);
  }

  /** Four words give the fields of a line without a file list. */
  lemma ParseFourWords(a: string, b: string, c: string, d: string)
    requires a != "" && NoSpace(a) && a[0] != '#' && !IsTrimmable(a[0])
    requires b != "" && NoSpace(b) && c != "" && NoSpace(c) && d != "" && NoSpace(d)
    requires !IsTrimmable(d[|d| - 1])
    requires ParseInt(a).Some? && ParseInt(c).Some?
    ensures ParseLine(a + " " + b + " " + c + " " + d) == Entry(ParseInt(a).value, NodeInfo(b, ParseInt(c).value, d, []))
  {
    var words := [a, b, c, d];
    assert SpaceSplittable(words, 5);
    JoinFour(a, b, c, d);
    ParseWords(words);
  }

  /**
   * A well-formed line with a file list: `id ip port status files`, where
   * the files text may itself hold spaces, is accepted with exactly those
   * fields and the files split on ','.
   */
  lemma ParseLineRoundTrip(id: int, ip: string, port: int, status: string, files: string)
    requires MinInt32 <= id <= MaxInt32 && MinInt32 <= port <= MaxInt32
    requires ip != "" && NoSpace(ip) && status != "" && NoSpace(status)
    requires files != "" && !IsSpace(files[0]) && !IsTrimmable(files[|files| - 1])
    ensures ParseLine(IntToString(id) + " " + ip + " " + IntToString(port) + " " + status + " " + files)
              == Entry(id, NodeInfo(ip, port, status, Split(files, ',')))
  {
    IntToStringIsWord(id);
    IntToStringIsWord(port);
    ParseIntOfIntToString(id);
    ParseIntOfIntToString(port);
    ParseFiveWords(IntToString(id), ip, IntToString(port), status, files);
  }

  /** A well-formed line of four words is accepted with those fields and an empty file list. */
  lemma ParseLineRoundTripNoFiles(id: int, ip: string, port: int, status: string)
    requires MinInt32 <= id <= MaxInt32 && MinInt32 <= port <= MaxInt32
    requires ip != "" && NoSpace(ip) && status != "" && NoSpace(status)
    requires !IsTrimmable(status[|status| - 1])
    ensures ParseLine(IntToString(id) + " " + ip + " " + IntToString(port) + " " + status)
              == Entry(id, NodeInfo(ip, port, status, []))
  {
    IntToStringIsWord(id);
    IntToStringIsWord(port);
    ParseIntOfIntToString(id);
    ParseIntOfIntToString(port);
    ParseFourWords(IntToString(id), ip, IntToString(port), status);
  }

  /**
   * A line that is neither blank nor a comment is rejected exactly when it
   * has fewer than four words or its first or third word is not an int.
   */
  lemma ParseLineRejects(line: string)
    ensures var parts := SplitSpaces(Trim(line), 5);
      ParseLine(line).Rejected? <==>
        !IsBlankOrComment(line) && (|parts| < 4 || ParseInt(parts[0]).None? || ParseInt(parts[2]).None?)
  {
  }

  /** A line in the older three-word format `id ip port` has too few words and is rejected. */
  lemma ThreeWordLineRejected(id: int, ip: string, port: int)
    requires ip != "" && NoSpace(ip)
    ensures ParseLine(IntToString(id) + " " + ip + " " + IntToString(port)).Rejected?
  {
    var i, p := IntToString(id), IntToString(port);
    IntToStringIsWord(id);
    IntToStringIsWord(port);
    var words := [i, ip, p];
    assert Join(' ', words[2..]) == p;
    assert Join(' ', words[1..]) == ip + " " + p;
    var line := Join(' ', words);
    assert line == i + " " + ip + " " + p;
    WordsLine(words);
    SplitSpacesJoin(words, 5);
  }

  /** `setNodeStatus`: the node's status is replaced, nothing else; an unknown id changes nothing. */
  function WithStatus(nodes: map<int, NodeInfo>, id: int, status: string): (r: map<int, NodeInfo>)
    ensures r.Keys == nodes.Keys
    ensures id in nodes ==> r[id].status == status && r[id].ip == nodes[id].ip
                            && r[id].port == nodes[id].port && r[id].files == nodes[id].files
    ensures forall k :: k in nodes && k != id ==> r[k] == nodes[k]
    ensures id !in nodes ==> r == nodes
  {
    if id in nodes then nodes[id := nodes[id].(status := status)] else nodes
  }

  /** `setNodeFiles`: the node's file list is replaced by exactly `files`; an unknown id changes nothing. */
  function WithFiles(nodes: map<int, NodeInfo>, id: int, files: seq<string>): (r: map<int, NodeInfo>)
    ensures r.Keys == nodes.Keys
    ensures id in nodes ==> r[id].files == files && r[id].ip == nodes[id].ip
                            && r[id].port == nodes[id].port && r[id].status == nodes[id].status
    ensures forall k :: k in nodes && k != id ==> r[k] == nodes[k]
    ensures id !in nodes ==> r == nodes
  {
    if id in nodes then nodes[id := nodes[id].(files := files)] else nodes
  }

  /** Neither setter adds or removes a node, so after loading the key set never changes. */
  lemma SettersKeepKeys(nodes: map<int, NodeInfo>, id: int, status: string, files: seq<string>, id2: int)
    ensures WithFiles(WithStatus(nodes, id, status), id2, files).Keys == nodes.Keys
    ensures |WithFiles(WithStatus(nodes, id, status), id2, files)| == |nodes|
  {
    var r := WithFiles(WithStatus(nodes, id, status), id2, files);
    assert r.Keys == nodes.Keys;
    assert |r.Keys| == |nodes.Keys|;
  }

  class ConfigLoader {
    var nodes: map<int, NodeInfo>

    /** `new ConfigLoader()`, with the lines of nodes.config handed in instead of read from disk. */
    constructor (lines: seq<string>)
      ensures nodes == Load(ParseLine, map[], lines)
    {
      nodes := map[];
      new;
      LoadConfig(lines);
    }

    /** `loadConfig`: every line is handled on its own; a bad line never stops the loop. */
    method LoadConfig(lines: seq<string>)
      modifies this
      ensures nodes == Load(ParseLine, old(nodes), lines)
    {
      var i := 0;
      while i < |lines|
        invariant 0 <= i <= |lines|
        invariant nodes == Load(ParseLine, old(nodes), lines[..i])
      {
        assert lines[..i + 1][..i] == lines[..i];
        var parsed := ParseLine(lines[i]);
        if parsed.Entry? {
          nodes := nodes[parsed.id := parsed.info];
        }
        i := i + 1;
      }
      assert lines[..|lines|] == lines;
    }

    /** `getNodes`: the live map itself. */
    function GetNodes(): (r: map<int, NodeInfo>)
      reads this
      ensures r == nodes
    {
      nodes
    }

    /** `setNodeStatus`. */
    method SetNodeStatus(nodeId: int, newStatus: string)
      modifies this
      ensures nodes == WithStatus(old(nodes), nodeId, newStatus)
    {
      if nodeId in nodes {
        nodes := nodes[nodeId := nodes[nodeId].(status := newStatus)];
      }
    }

    /** `setNodeFiles`. */
    method SetNodeFiles(nodeId: int, newFiles: seq<string>)
      modifies this
      ensures nodes == WithFiles(old(nodes), nodeId, newFiles)
    {
      if nodeId in nodes {
        nodes := nodes[nodeId := nodes[nodeId].(files := newFiles)];
      }
    }
  }
}
