/** Per-category node attributes: the truncated label and the fill colour. */
module Styling {

  /** The label length, `SHORT`. */
  const Short: nat := 7

  /** Python's `s[:SHORT]`: the longest prefix of `s` of at most `Short` characters. */
  function Prefix(s: string): (r: string)
    ensures r <= s
    ensures |r| == if |s| < Short then |s| else Short
  {
    if |s| <= Short then s else s[..Short]
  }

  /** Python's `s.find(x)`: the index of the first `x` in `s`, or -1 when there is none. */
  function Find(s: string, x: char): (i: int)
    ensures -1 <= i < |s|
    ensures i == -1 <==> x !in s
    ensures 0 <= i ==> s[i] == x && x !in s[..i]
  {
    if s == [] then -1
    else if s[0] == x then 0
    else
      var j := Find(s[1..], x);
      if j == -1 then -1 else j + 1
  }

  /** Python's `id[id.find('/') + 1:]`: what follows the first '/', or all of
      `id` when it contains none. */
  function RemoteName(id: string): (r: string)
    ensures '/' !in id ==> r == id
    ensures '/' in id ==> exists i :: 0 <= i < |id| && id[i] == '/' && '/' !in id[..i] && r == id[i + 1..]
  {
    id[Find(id, '/') + 1..]
  }

  /** The label of the node with identity `id` in category `c`: remote
      branches ('r') and remote heads ('d') are labelled by their remote
      name, every other category by the identity itself, cut to `Short`. */
  function Label(c: char, id: string): (r: string)
    ensures |r| <= Short
  {
    if c == 'r' || c == 'd' then Prefix(RemoteName(id)) else Prefix(id)
  }

  /** A label is a prefix of the identity, or for remote branches and remote
      heads of the remote name, and it is cut short only at `Short`
      characters; an identity without '/' is labelled by its plain prefix. */
  lemma LabelIsPrefix(c: char, id: string)
    ensures var base := if c == 'r' || c == 'd' then RemoteName(id) else id;
      Label(c, id) <= base && |Label(c, id)| == if |base| < Short then |base| else Short
    ensures c != 'r' && c != 'd' ==> Label(c, id) <= id && (|id| >= Short ==> |Label(c, id)| == Short)
    ensures c == 'r' || c == 'd' ==> Label(c, id) <= RemoteName(id)
    ensures '/' !in id ==> Label(c, id) == Prefix(id)
  {
  }

  /** The fixed fill colour of each category that has nodes; the upstream
      category 'u' and unknown letters have none. */
  function Color(c: char): (r: string)
    ensures r == "" <==> c !in "btclhrdsag"
  {
    match c
    case 'b' => "#9ccc66"  // green
    case 't' => "#bc9b8f"  // brown
    case 'c' => "#85d5fa"  // blue
    case 'l' => "#9999ff"  // violet
    case 'h' => "#e6ccff"  // pale violet
    case 'r' => "#ffa366"  // orange
    case 'd' => "#ffbeb3"  // pale orange
    case 's' => "#ff6666"  // red
    case 'a' => "#ffdf80"  // pale yellow
    case 'g' => "#ffc61a"  // yellow
    case _ => ""
  }

  /** Distinct categories are drawn in distinct colours. */
  lemma ColorsDistinct(c1: char, c2: char)
    requires c1 in "btclhrdsag" && c2 in "btclhrdsag" && c1 != c2
    ensures Color(c1) != Color(c2)
  {
  }

  /** A remote-qualified identity is labelled by its remote name, for a
      remote whose name has no '/'. */
  lemma RemoteLabelDropsRemote(remote: string, name: string, c: char)
    requires '/' !in remote && (c == 'r' || c == 'd')
    ensures Label(c, remote + "/" + name) == Prefix(name)
  {
    var id := remote + "/" + name;
    assert id[..|remote|] == remote && id[|remote|] == '/';
    assert Find(id, '/') == |remote|;
    assert id[|remote| + 1..] == name;
  }

  /** The label of "origin/main" as a remote branch is "main". */
  lemma OriginMainLabel()
    ensures Label('r', "origin/main") == "main"
  {
    RemoteLabelDropsRemote("origin", "main", 'r');
    assert "origin" + "/" + "main" == "origin/main";
  }
}
