/** An abstract view of a parsed XML file, standing in for the XML library:
    the scripts only ever ask a node for the string form of what a path
    selects, for the sub-elements at a path, and for its own markup. Paths
    are kept as the scripts write them and are never evaluated here. */
module XmlModel {
  import opened Outcomes
  import opened Text

  /** A sub-element reached from a document node, such as one inventor or
      one assignee: the string forms of what each relative path selects. */
  datatype Element = Element(texts: string -> seq<string>)

  /** One application or grant: its serialised markup (`node.to_s`), the
      string forms of what each path selects, and the sub-elements at each
      element path. */
  datatype Node = Node(markup: string, texts: string -> seq<string>, elements: string -> seq<Element>)

  /** A parsed file: the nodes each element path selects, and the targets of
      the processing instructions anywhere in it. */
  datatype Document = Document(nodes: string -> seq<Node>, instructions: set<string>)

  /** `NodeSet#to_s`: the selected items concatenated with no separator. */
  function TextOf(items: seq<string>): string {
    Flatten(items)
  }

  /** `NodeSet#first.to_s`: the first selected item, or `""` for none. */
  function FirstText(items: seq<string>): (r: string)
    ensures items == [] ==> r == []
    ensures items != [] ==> r == items[0]
  {
    if items == [] then [] else items[0]
  }

  const FirstNamePath := ".//first-name/text()"
  const LastNamePath := ".//last-name/text()"
  const OrgNamePath := "./addressbook/orgname/text()"

  /** An inventor as the scripts print it: first name, a space, last name. */
  function PersonName(e: Element): string {
    TextOf(e.texts(FirstNamePath)) + " " + TextOf(e.texts(LastNamePath))
  }

  function PersonNames(es: seq<Element>): (r: seq<string>)
    ensures |r| == |es| && forall i | 0 <= i < |es| :: r[i] == PersonName(es[i])
  {
    if es == [] then [] else [PersonName(es[0])] + PersonNames(es[1..])
  }

  /** An assignee as the scripts print it: its organisation name. */
  function OrgName(e: Element): string {
    TextOf(e.texts(OrgNamePath))
  }

  function OrgNames(es: seq<Element>): (r: seq<string>)
    ensures |r| == |es| && forall i | 0 <= i < |es| :: r[i] == OrgName(es[i])
  {
    if es == [] then [] else [OrgName(es[0])] + OrgNames(es[1..])
  }

  // ---------------------------------------------------------------------
  // Multi-valued fields: "[a][b]..."

  /** `items.map { |i| "[#{i}]" }.join`: each item in brackets, in order, with
      no separator. */
  function BracketJoin(items: seq<string>): string {
    if items == [] then [] else "[" + items[0] + "]" + BracketJoin(items[1..])
  }

  /** The first `]` at or after `from`. */
  function CloseFrom(s: string, from: nat): (r: Option<nat>)
    ensures r.Some? ==> from <= r.value < |s| && s[r.value] == ']'
    ensures r.Some? ==> forall j | from <= j < r.value :: s[j] != ']'
    ensures r.None? ==> forall j | from <= j < |s| :: s[j] != ']'
    decreases |s| - from
  {
    if from >= |s| then None
    else if s[from] == ']' then Some(from)
    else CloseFrom(s, from + 1)
  }

  lemma {:induction false} CloseFromFinds(s: string, from: nat, k: nat)
    requires from <= k < |s| && s[k] == ']'
    requires forall j | from <= j < k :: s[j] != ']'
    ensures CloseFrom(s, from) == Some(k)
    decreases k - from
  {
    if from < k {
      CloseFromFinds(s, from + 1, k);
    }
  }

  /** Reads a bracket-joined field back into its items. */
  function Unbracket(s: string): Option<seq<string>>
    decreases |s|
  {
    if s == [] then Some([])
    else if s[0] != '[' then None
    else
      match CloseFrom(s, 1)
      case None => None
      case Some(k) =>
        match Unbracket(s[k + 1..])
        case None => None
        case Some(rest) => Some([s[1..k]] + rest)
  }

  /** One bracketed item without a closing bracket is read back first. */
  lemma UnbracketCons(x: string, tail: string)
    requires Excludes(x, ']')
    ensures Unbracket("[" + x + "]" + tail)
      == match Unbracket(tail)
         case None => None
         case Some(rest) => Some([x] + rest)
  {
    var s := "[" + x + "]" + tail;
    assert s[0] == '[' && s[|x| + 1] == ']';
    forall j | 1 <= j < |x| + 1 ensures s[j] != ']' {
      assert s[j] == x[j - 1];
    }
    CloseFromFinds(s, 1, |x| + 1);
    assert s[|x| + 2..] == tail;
    assert s[1..|x| + 1] == x;
  }

  /** The join loses nothing when no item holds a closing bracket. */
  lemma {:induction false} UnbracketBracketJoin(items: seq<string>)
    requires forall i | 0 <= i < |items| :: Excludes(items[i], ']')
    ensures Unbracket(BracketJoin(items)) == Some(items)
  {
    if items != [] {
      UnbracketBracketJoin(items[1..]);
      UnbracketCons(items[0], BracketJoin(items[1..]));
      assert [items[0]] + items[1..] == items;
    }
  }

  /** The older scripts build the same field by appending one bracketed item
      at a time. */
  lemma {:induction false} BracketJoinSnoc(items: seq<string>, x: string)
    ensures BracketJoin(items + [x]) == BracketJoin(items) + "[" + x + "]"
  {
    if items != [] {
      assert (items + [x])[1..] == items[1..] + [x];
      BracketJoinSnoc(items[1..], x);
    } else {
      assert [x][1..] == [];
    }
  }

  // ---------------------------------------------------------------------
  // The substring test of the older scripts

  /** `include?(" NSF ") or include?("National Science Foundation") or
      include?(" NSF") or include?("NSF ")`. */
  predicate MentionsNsfLoosely(s: string) {
    Contains(s, " NSF ") || Contains(s, "National Science Foundation") || Contains(s, " NSF") || Contains(s, "NSF ")
  }
}
