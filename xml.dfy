/**
 * The tree that `generate_xml` builds with ElementTree before writing it: an `Elements`
 * root, one `Element` child per record, and under it one leaf per field, tagged with the
 * field's key and holding its value as text.
 */
module Xml {
  import opened Wrappers
  import opened Records

  /** An ElementTree element: a tag, an optional text and the list of children. */
  datatype Node = Node(tag: string, text: Option<string>, children: seq<Node>)

  const RootTag := "Elements"
  const RecordTag := "Element"

  /** `child = ET.SubElement(el, key); child.text = value`. */
  function Leaf(f: Field): Node
  {
    Node(f.key, Some(f.value), [])
  }

  /** The `Element` node of one record, once its inner loop has finished. */
  function RecordNode(r: Record): Node
  {
    Node(RecordTag, None, seq(|r|, j requires 0 <= j < |r| => Leaf(r[j])))
  }

  /** The whole tree, once the outer loop has finished. */
  function ElementsTree(elements: seq<Record>): (root: Node)
    ensures IsElementsTree(root)
    ensures |root.children| == |elements|
    ensures forall i | 0 <= i < |elements| :: |root.children[i].children| == |elements[i]|
  {
    Node(RootTag, None, seq(|elements|, i requires 0 <= i < |elements| => RecordNode(elements[i])))
  }

  /** The tree-building loops of `generate_xml`, returning the root instead of writing it. */
  method BuildTree(elements: seq<Record>) returns (root: Node)
    ensures root == ElementsTree(elements)
  {
    var records: seq<Node> := [];
    for i := 0 to |elements|
      invariant |records| == i
      invariant forall k | 0 <= k < i :: records[k] == RecordNode(elements[k])
    {
      var element := elements[i];
      var leaves: seq<Node> := [];
      for j := 0 to |element|
        invariant |leaves| == j
        invariant forall m | 0 <= m < j :: leaves[m] == Leaf(element[m])
      {
        leaves := leaves + [Leaf(element[j])];
      }
      records := records + [Node(RecordTag, None, leaves)];
    }
    root := Node(RootTag, None, records);
  }

  /** The shape every tree built here has: a root of record nodes, each a list of text leaves. */
  predicate IsElementsTree(root: Node)
  {
    && root.tag == RootTag && root.text == None
    && forall i | 0 <= i < |root.children| ::
         var el := root.children[i];
         && el.tag == RecordTag && el.text == None
         && forall j | 0 <= j < |el.children| ::
              el.children[j].text.Some? && el.children[j].children == []
  }

  /** Reads the records back from a tree: one per record node, one field per leaf. */
  function RecordsOf(root: Node): seq<Record>
  {
    seq(|root.children|, i requires 0 <= i < |root.children| =>
      var el := root.children[i];
      seq(|el.children|, j requires 0 <= j < |el.children| =>
        Field(el.children[j].tag, el.children[j].text.GetOr(""))))
  }

  /** The tree holds every record, field for field and in order. */
  lemma TreeRoundTrip(elements: seq<Record>)
    ensures RecordsOf(ElementsTree(elements)) == elements
  {
    var recs := RecordsOf(ElementsTree(elements));
    forall i | 0 <= i < |elements| ensures recs[i] == elements[i] {
      assert |recs[i]| == |elements[i]|;
      forall j | 0 <= j < |elements[i]| ensures recs[i][j] == elements[i][j] {
      }
    }
  }

  /** Conversely, every tree of that shape is the tree of the records read back from it. */
  lemma RecordsRoundTrip(root: Node)
    requires IsElementsTree(root)
    ensures ElementsTree(RecordsOf(root)) == root
  {
    var t := ElementsTree(RecordsOf(root));
    forall i | 0 <= i < |root.children| ensures t.children[i] == root.children[i] {
      var el := root.children[i];
      forall j | 0 <= j < |el.children| ensures t.children[i].children[j] == el.children[j] {
      }
    }
  }
}
