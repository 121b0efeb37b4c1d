/** The node-selection set: the identities that an edge may point at. */
module NodeSet {
  import opened Repository
  import opened Selection

  /** What category `c` adds to the node-selection set: the blobs, or the
      keys of the category's dictionary. The local head adds the one-character
      strings of its identifier (the identifier is iterated character by
      character), and the upstream category and unknown letters add nothing. */
  function CategoryIds(m: GitModel, c: char): (r: set<string>)
    ensures c !in Categories - {'u'} ==> r == {}
    ensures c == 'h' ==> forall id :: id in r ==> |id| == 1
  {
    match c
    case 'b' => BlobSet(m.blobs)
    case 't' => m.trees.values.Keys
    case 'c' => m.commits.values.Keys
    case 'l' => m.localBranches.values.Keys
    case 'h' => HeadCharacters(m.localHead.0)
    case 'r' => m.remoteBranches.values.Keys
    case 'd' => m.remoteHeads.values.Keys
    case 's' => m.remoteServers.values.Keys
    case 'a' => m.annotatedTags.values.Keys
    case 'g' => m.tags.values.Keys
    case _ => {}
  }

  /** The blobs, as the set they are. */
  function BlobSet(blobs: seq<string>): set<string> {
    set b | b in blobs
  }

  /** The one-character strings of `h`. */
  function HeadCharacters(h: string): set<string> {
    set ch | ch in h :: [ch]
  }

  /** The union, over the letters of `letters`, of what each category adds. */
  function NodeSelection(m: GitModel, letters: string): set<string> {
    set c, id | c in letters && id in CategoryIds(m, c) :: id
  }

  /** The node-selection set, built by one update per selected letter, taking
      the letters in the order b, t, c, l, h, r, d, s, a, g, u. */
  method FilterNodes(m: GitModel, letters: string) returns (nodeSet: set<string>)
    ensures nodeSet == NodeSelection(m, letters)
  {
    nodeSet := {};
    for i := 0 to |Order|
      invariant nodeSet == SelectedUpTo(m, letters, i)
    {
      var c := Order[i];
      if c in letters {
        nodeSet := nodeSet + CategoryIds(m, c);
      }
    }
    SelectedUpToAll(m, letters);
  }

  /** What the first `n` categories of `Order` add when selected. */
  function SelectedUpTo(m: GitModel, letters: string, n: nat): set<string>
    requires n <= |Order|
  {
    if n == 0 then {}
    else if Order[n - 1] in letters then SelectedUpTo(m, letters, n - 1) + CategoryIds(m, Order[n - 1])
    else SelectedUpTo(m, letters, n - 1)
  }

  lemma {:induction false} SelectedUpToMembers(m: GitModel, letters: string, n: nat, id: string)
    requires n <= |Order|
    ensures id in SelectedUpTo(m, letters, n) <==>
            exists i :: 0 <= i < n && Order[i] in letters && id in CategoryIds(m, Order[i])
  {
    if n > 0 {
      SelectedUpToMembers(m, letters, n - 1, id);
    }
  }

  /** Processing all of `Order` builds exactly the node-selection set. */
  lemma SelectedUpToAll(m: GitModel, letters: string)
    ensures SelectedUpTo(m, letters, |Order|) == NodeSelection(m, letters)
  {
    LettersOfOrder();
    forall id ensures id in SelectedUpTo(m, letters, |Order|) <==> id in NodeSelection(m, letters) {
      SelectedUpToMembers(m, letters, |Order|, id);
      if id in NodeSelection(m, letters) {
        var c :| c in letters && id in CategoryIds(m, c);
        CategoryIdsDomain(m, c);
        assert c in Letters(Order);
        var i :| 0 <= i < |Order| && Order[i] == c;
      }
    }
  }

  /** Only the ten node categories add identities. */
  lemma CategoryIdsDomain(m: GitModel, c: char)
    requires CategoryIds(m, c) != {}
    ensures c in Categories - {'u'}
  {
  }

  /** Selecting more letters never shrinks the node-selection set. */
  lemma SelectionMonotone(m: GitModel, s1: string, s2: string)
    requires Letters(s1) <= Letters(s2)
    ensures NodeSelection(m, s1) <= NodeSelection(m, s2)
  {
    forall c | c in s1 ensures c in s2 {
      assert c in Letters(s1);
    }
  }

  /** Only the ten node categories matter: the upstream letter, unknown
      letters, their order and their repetition do not change the set. */
  lemma SelectionIgnoresOtherLetters(m: GitModel, s1: string, s2: string)
    requires forall c :: c in Categories - {'u'} ==> (c in s1 <==> c in s2)
    ensures NodeSelection(m, s1) == NodeSelection(m, s2)
  {
    forall id | id in NodeSelection(m, s1) ensures id in NodeSelection(m, s2) {
      var c :| c in s1 && id in CategoryIds(m, c);
      CategoryIdsDomain(m, c);
    }
    forall id | id in NodeSelection(m, s2) ensures id in NodeSelection(m, s1) {
      var c :| c in s2 && id in CategoryIds(m, c);
      CategoryIdsDomain(m, c);
    }
  }

  /** The head adds the characters of its identifier, not the identifier:
      the identifier itself is selected by 'h' only when it has one character. */
  lemma HeadAddsCharacters(m: GitModel)
    ensures NodeSelection(m, "h") == HeadCharacters(m.localHead.0)
    ensures m.localHead.0 in NodeSelection(m, "h") <==> |m.localHead.0| == 1
  {
    var h := m.localHead.0;
    forall id ensures id in NodeSelection(m, "h") <==> id in HeadCharacters(h) {
      if id in NodeSelection(m, "h") {
        var c :| c in "h" && id in CategoryIds(m, c);
        assert c == 'h';
      }
      if id in HeadCharacters(h) {
        assert 'h' in "h" && id in CategoryIds(m, 'h');
      }
    }
    if |h| == 1 {
      assert h == [h[0]] && h[0] in h;
    }
  }
}
