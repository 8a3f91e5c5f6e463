/**
 * What both `ConfigLoader.loadConfig` loops have in common: each line of
 * nodes.config is parsed on its own, and a line that yields an entry is
 * `put` into the node map, so a later line with the same id replaces an
 * earlier one and a skipped line changes nothing.
 */
module ConfigLines {
  import opened JavaText

  /** The fate of one configuration line. */
  datatype LineResult<V> =
    | Ignored                       // blank after trimming, or a '#' comment
    | Rejected                      // malformed: logged (or silently dropped) and skipped
    | Entry(id: int, info: V)       // `nodes.put(id, info)`

  /** Both loaders skip a line that is empty after `trim()` or starts with '#'. */
  predicate IsBlankOrComment(line: string) {
    var t := Trim(line);
    t == [] || t[0] == '#'
  }

  function Put<V>(nodes: map<int, V>, r: LineResult<V>): map<int, V>
  {
    if r.Entry? then nodes[r.id := r.info] else nodes
  }

  /** The node map after the loop has handled `lines`, in order, starting from `nodes`. */
  function Load<V>(parse: string -> LineResult<V>, nodes: map<int, V>, lines: seq<string>): (r: map<int, V>)
    ensures nodes.Keys <= r.Keys
    ensures |lines| == 0 ==> r == nodes
    decreases |lines|
  {
    if lines == [] then nodes
    else Put(Load(parse, nodes, lines[..|lines| - 1]), parse(lines[|lines| - 1]))
  }

  /** Loading two blocks of lines is loading the first, then the second on top of it. */
  lemma {:induction false} LoadAppend<V>(parse: string -> LineResult<V>, nodes: map<int, V>, a: seq<string>, b: seq<string>)
    ensures Load(parse, nodes, a + b) == Load(parse, Load(parse, nodes, a), b)
    decreases |b|
  {
    if b == [] {
      assert a + b == a;
    } else {
      assert (a + b)[..|a + b| - 1] == a + b[..|b| - 1];
      LoadAppend(parse, nodes, a, b[..|b| - 1]);
    }
  }

  /** A line that yields no entry contributes nothing, and the lines after it are still handled. */
  lemma LoadSkipsNonEntry<V>(parse: string -> LineResult<V>, nodes: map<int, V>, a: seq<string>, line: string, b: seq<string>)
    requires !parse(line).Entry?
    ensures Load(parse, nodes, a + [line] + b) == Load(parse, nodes, a + b)
  {
    LoadAppend(parse, nodes, a + [line], b);
    LoadAppend(parse, nodes, a, b);
    assert (a + [line])[..|a|] == a;
  }

  /** The last line that names an id decides that id's entry. */
  lemma {:induction false} LoadLastWins<V>(parse: string -> LineResult<V>, nodes: map<int, V>, lines: seq<string>, j: int)
    requires 0 <= j < |lines| && parse(lines[j]).Entry?
    requires forall i :: j < i < |lines| ==> !(parse(lines[i]).Entry? && parse(lines[i]).id == parse(lines[j]).id)
    ensures parse(lines[j]).id in Load(parse, nodes, lines)
    ensures Load(parse, nodes, lines)[parse(lines[j]).id] == parse(lines[j]).info
    decreases |lines|
  {
    if j < |lines| - 1 {
      var front := lines[..|lines| - 1];
      assert forall i :: j < i < |front| ==> front[i] == lines[i];
      LoadLastWins(parse, nodes, front, j);
    }
  }

  /** The loaded keys are the starting keys plus the ids of the lines that yield entries. */
  lemma {:induction false} LoadKeys<V>(parse: string -> LineResult<V>, nodes: map<int, V>, lines: seq<string>, k: int)
    ensures k in Load(parse, nodes, lines) <==>
              k in nodes || exists i :: 0 <= i < |lines| && parse(lines[i]).Entry? && parse(lines[i]).id == k
    decreases |lines|
  {
    if lines != [] {
      var front := lines[..|lines| - 1];
      LoadKeys(parse, nodes, front, k);
      assert forall i :: 0 <= i < |front| ==> front[i] == lines[i];
      if exists i :: 0 <= i < |lines| && parse(lines[i]).Entry? && parse(lines[i]).id == k {
        var i :| 0 <= i < |lines| && parse(lines[i]).Entry? && parse(lines[i]).id == k;
        if i < |front| {
          assert parse(front[i]).Entry? && parse(front[i]).id == k;
        }
      }
    }
  }

  /** An id that no entry line names keeps its starting value. */
  lemma {:induction false} LoadUntouched<V>(parse: string -> LineResult<V>, nodes: map<int, V>, lines: seq<string>, k: int)
    requires k in nodes
    requires forall i :: 0 <= i < |lines| ==> !(parse(lines[i]).Entry? && parse(lines[i]).id == k)
    ensures k in Load(parse, nodes, lines) && Load(parse, nodes, lines)[k] == nodes[k]
    decreases |lines|
  {
    if lines != [] {
      var front := lines[..|lines| - 1];
      assert forall i :: 0 <= i < |front| ==> front[i] == lines[i];
      LoadUntouched(parse, nodes, front, k);
    }
  }

  /** A line made of the given words, one space apart, is already trimmed and is no comment. */
  lemma WordsLine(words: seq<string>)
    requires |words| >= 2 && SpaceSplittable(words, |words|)
    requires words[0][0] != '#' && !IsTrimmable(words[0][0])
    requires !IsTrimmable(words[|words| - 1][|words[|words| - 1]| - 1])
    ensures Trim(Join(' ', words)) == Join(' ', words)
    ensures !IsBlankOrComment(Join(' ', words))
  {
    var line := Join(' ', words);
    LastOfJoin(words);
    TrimUnique([], line, []);
    assert [] + line + [] == line;
  }
}
