/** The node-set resolver: turns a selection specifier (a keyword or a
    literal string of category letters) into the letter string that governs
    the projection. */
module Selection {

  /** The eleven category letters: blob, tree, commit, local branch, local
      head, remote branch, remote head, remote server, annotated tag,
      lightweight tag, upstream link. */
  const Categories: set<char> := {'b', 't', 'c', 'l', 'h', 'r', 'd', 's', 'a', 'g', 'u'}

  /** The order in which the categories are processed. */
  const Order: string := "btclhrdsagu"

  const All: string := "all"
  const Commits: string := "commits"
  const Branches: string := "branches"

  const AllNodes: string := "dchatsglurb"
  /** The values of `AllNodes` with 'b' and 't' deleted, and of that with
      'c' deleted as well. */
  const CommitNodes: string := "dchasglur"
  const BranchNodes: string := "dhasglur"

  /** The set of letters occurring in `s`. */
  function Letters(s: string): set<char> {
    set c | c in s
  }

  /** No letter of `s` occurs twice. */
  predicate NoRepeats(s: string) {
    forall i, j :: 0 <= i < j < |s| ==> s[i] != s[j]
  }

  /** Keyword resolution; every other specifier passes through unchanged. */
  function Resolve(spec: string): (r: string)
    ensures spec == All ==> Letters(r) == Categories && |r| == 11 && NoRepeats(r)
    ensures spec == Commits ==> Letters(r) == Categories - {'b', 't'}
    ensures spec == Branches ==> Letters(r) == Categories - {'b', 't', 'c'}
    ensures spec != All && spec != Commits && spec != Branches ==> r == spec
  {
    KeywordLetters();
    KeywordStringsHaveNoRepeats();
    if spec == All then AllNodes
    else if spec == Commits then CommitNodes
    else if spec == Branches then BranchNodes
    else spec
  }

  /** The letter sets of the three keyword strings. */
  lemma KeywordLetters()
    ensures Letters(AllNodes) == Categories
    ensures Letters(CommitNodes) == Categories - {'b', 't'}
    ensures Letters(BranchNodes) == Categories - {'b', 't', 'c'}
  {
    LettersOfAll();
    LettersOfCommits();
    LettersOfBranches();
  }

  lemma LettersOfOrder() ensures Letters(Order) == Categories && NoRepeats(Order) {
    assert forall c :: c in Order <==> c in Categories;
  }

  /** Every letter of `Order` is a category letter. */
  lemma OrderLetter(i: nat)
    requires i < |Order|
    ensures Order[i] in Categories
  {
    LettersOfOrder();
    assert Order[i] in Letters(Order);
  }

  /** The position of a category letter in `Order`; 11 for any other character. */
  function Rank(c: char): (r: nat)
    ensures r < |Order| ==> Order[r] == c
  {
    match c
    case 'b' => 0
    case 't' => 1
    case 'c' => 2
    case 'l' => 3
    case 'h' => 4
    case 'r' => 5
    case 'd' => 6
    case 's' => 7
    case 'a' => 8
    case 'g' => 9
    case 'u' => 10
    case _ => 11
  }

  /** `Rank` inverts indexing into `Order`. */
  lemma OrderRank(i: nat)
    requires i < |Order|
    ensures Rank(Order[i]) == i
  {
  }

  lemma LettersOfAll() ensures Letters(AllNodes) == Categories {
    assert forall c :: c in AllNodes <==> c in Categories;
  }

  lemma LettersOfCommits() ensures Letters(CommitNodes) == Categories - {'b', 't'} {
    assert forall c :: c in CommitNodes <==> c in Categories - {'b', 't'};
  }

  lemma LettersOfBranches() ensures Letters(BranchNodes) == Categories - {'b', 't', 'c'} {
    assert forall c :: c in BranchNodes <==> c in Categories - {'b', 't', 'c'};
  }

  /** Each keyword string lists each of its letters exactly once. */
  lemma KeywordStringsHaveNoRepeats()
    ensures NoRepeats(AllNodes) && NoRepeats(CommitNodes) && NoRepeats(BranchNodes)
  {
  }

  /** Resolving an already resolved specifier changes nothing. */
  lemma ResolveIdempotent(spec: string)
    ensures Resolve(Resolve(spec)) == Resolve(spec)
  {
    KeywordLetters();
    assert 'l' in All && 'b' in Branches && 'o' in Commits;
  }
}
