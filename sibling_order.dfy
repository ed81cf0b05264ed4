/** The comparator the script hands to the hierarchy's `sort` before the treemap
    layout runs (app.js line 47): siblings are ordered by height, tallest first,
    and siblings of equal height by value, heaviest first. */
module SiblingOrder {

  /** What the comparator reads of a hierarchy node: its height (the number of
      levels down to its deepest leaf) and its value (the sum of its leaves'
      values, computed by `root.sum`). */
  datatype NodeKey = NodeKey(height: nat, value: real)

  /** `a` is placed before `b`: it is taller, or just as tall and heavier. */
  predicate Precedes(a: NodeKey, b: NodeKey) {
    a.height > b.height || (a.height == b.height && a.value > b.value)
  }

  /** `b.height - a.height || b.value - a.value`. JavaScript's `||` returns its
      left operand unless that operand is 0, so the value difference decides
      only between siblings of equal height. A negative result sorts `a` first. */
  function Compare(a: NodeKey, b: NodeKey): (r: real)
    ensures r < 0.0 <==> Precedes(a, b)
    ensures r > 0.0 <==> Precedes(b, a)
    ensures r == 0.0 <==> a == b
    ensures a.height == b.height ==> (r < 0.0 <==> b.value < a.value) && (r > 0.0 <==> a.value < b.value)
  {
    var byHeight := b.height - a.height;
    if byHeight != 0 then byHeight as real else b.value - a.value
  }

  /** Swapping the arguments negates the comparison. */
  lemma CompareAntisymmetric(a: NodeKey, b: NodeKey)
    ensures Compare(a, b) == -Compare(b, a)
  {
  }

  /** "Sorts no later than" is transitive, so the comparator is consistent. */
  lemma CompareTransitive(a: NodeKey, b: NodeKey, c: NodeKey)
    requires Compare(a, b) <= 0.0 && Compare(b, c) <= 0.0
    ensures Compare(a, c) <= 0.0
  {
  }

  /** A sibling list in the order the comparator asks for: no neighbour pair is inverted. */
  predicate Sorted(children: seq<NodeKey>) {
    forall i :: 0 <= i < |children| - 1 ==> Compare(children[i], children[i + 1]) <= 0.0
  }

  /** In a sorted sibling list every earlier child sorts no later than every later
      one: heights never increase, and within one height values never increase. */
  lemma {:induction false} SortedPairwise(children: seq<NodeKey>)
    requires Sorted(children)
    ensures forall i, j :: 0 <= i < j < |children| ==> Compare(children[i], children[j]) <= 0.0
    ensures forall i, j :: 0 <= i < j < |children| ==> children[i].height >= children[j].height
    ensures forall i, j :: 0 <= i < j < |children| && children[i].height == children[j].height ==>
      children[i].value >= children[j].value
  {
    if |children| > 1 {
      var rest := children[1..];
      assert Sorted(rest) by {
        forall i | 0 <= i < |rest| - 1 ensures Compare(rest[i], rest[i + 1]) <= 0.0 {
          assert rest[i] == children[i + 1] && rest[i + 1] == children[i + 2];
        }
      }
      SortedPairwise(rest);
      forall i, j | 0 <= i < j < |children| ensures Compare(children[i], children[j]) <= 0.0 {
        if i > 0 {
          assert children[i] == rest[i - 1] && children[j] == rest[j - 1];
        } else if j > 1 {
          assert children[1] == rest[0] && children[j] == rest[j - 1];
          CompareTransitive(children[0], children[1], children[j]);
        }
      }
    }
  }

  /** The first child of a sorted sibling list is the tallest, and the heaviest
      among the tallest. */
  lemma SortedFirstIsTallestHeaviest(children: seq<NodeKey>)
    requires Sorted(children) && |children| > 0
    ensures forall k :: 0 <= k < |children| ==> !Precedes(children[k], children[0])
  {
    SortedPairwise(children);
  }
}
