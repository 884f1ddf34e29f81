/** The abstract element tree that JAXB renders the records into, and the two
    layout rules the records use:
    - a scalar field becomes one element holding its text, and a null field
      becomes nothing at all;
    - a list field annotated with a wrapper becomes ONE container element that
      holds one item element per list entry, in list order; a null list
      becomes nothing, an empty list an empty container.
    The tree stops short of characters: escaping, namespaces and the XML
    declaration belong to the marshaller and are not modelled.
 */
module Xml {
  import opened Wrappers

  /** Every element name the protocol uses, spelled exactly (and with the same
      case) as it appears on the wire. Being constructors, distinct names are
      distinct values. */
  datatype Tag =
    // roots
    | CustomerInformationRequest | CustomerInformationResponse
    | PaymentNotificationRequest | PaymentNotificationResponse
    // containers and their items
    | Customers | Customer | Payments | Payment | PaymentItems | PaymentItem
    // scalar fields
    | MerchantReference | CustReference | ServiceUsername | ServicePassword
    | FtpUsername | FtpPassword | FtpUrl | RouteId | ServiceUrl
    | Status | StatusMessage | FirstName | LastName | OtherName | Email | Phone
    | ThirdPartyCode
    | ProductGroupCode | PaymentLogId | AlternateCustReference | Amount
    | PaymentStatus | PaymentMethod | PaymentReference | TerminalId | ChannelName
    | Location | IsReversal | PaymentDate | SettlementDate | InstitutionId
    | InstitutionName | BranchName | BankName | FeeName | CustomerName
    | OtherCustomerInfo | ReceiptNo | CollectionsAccount | BankCode
    | CustomerAddress | CustomerPhoneNumber | DepositorName | DepositSlipNumber
    | PaymentCurrency | OriginalPaymentLogId | OriginalPaymentReference | Teller
    | ItemName | ItemCode | ItemAmount | LeadBankCode | LeadBankCbnCode
    | LeadBankName | CategoryCode | CategoryName | ItemQuantity

  datatype Node = Elem(tag: Tag, children: seq<Node>) | Text(value: string)

  /** How the four root names are spelled in the XML text. */
  function RootName(t: Tag): Option<string> {
    match t
    case CustomerInformationRequest => Some("CustomerInformationRequest")
    case CustomerInformationResponse => Some("CustomerInformationResponse")
    case PaymentNotificationRequest => Some("PaymentNotificationRequest")
    case PaymentNotificationResponse => Some("PaymentNotificationResponse")
    case _ => None
  }

  ghost predicate Distinct(tags: seq<Tag>) {
    forall i, j :: 0 <= i < j < |tags| ==> tags[i] != tags[j]
  }

  /** `pos` gives each name of `tags` its own position in the list: a cheap
      certificate that the names are pairwise distinct. */
  ghost predicate Positioned(tags: seq<Tag>, pos: Tag -> int, offset: int) {
    forall i :: 0 <= i < |tags| ==> pos(tags[i]) == offset + i
  }

  lemma PositionedIsDistinct(tags: seq<Tag>, pos: Tag -> int, offset: int)
    requires Positioned(tags, pos, offset)
    ensures Distinct(tags)
  {
  }

  /** True if the node sequence does not begin with an element named by one of `tags`. */
  predicate StartsOutside(nodes: seq<Node>, tags: seq<Tag>) {
    |nodes| == 0 || !nodes[0].Elem? || nodes[0].tag !in tags
  }

  /** True if `n` is an element named `tag` that holds nothing but one text node. */
  predicate IsLeaf(n: Node, tag: Tag) {
    n.Elem? && n.tag == tag && |n.children| == 1 && n.children[0].Text?
  }

  // ---------------------------------------------------------------------------
  // Scalar fields

  /** A scalar field: nothing when null, otherwise one element holding its text. */
  function Leaf(tag: Tag, v: Option<string>): seq<Node> {
    match v
    case None => []
    case Some(s) => [Elem(tag, [Text(s)])]
  }

  /** A run of scalar fields, in the order their names are listed. */
  function Fields(tags: seq<Tag>, vals: seq<Option<string>>): seq<Node>
    requires |tags| == |vals|
    decreases |tags|
  {
    if |tags| == 0 then []
    else Leaf(tags[0], vals[0]) + Fields(tags[1..], vals[1..])
  }

  /** Unfolds a run of scalar fields at any position: the field at `k`, then
      the rest of the run. */
  lemma FieldsFrom(tags: seq<Tag>, vals: seq<Option<string>>, k: int)
    requires |tags| == |vals| && 0 <= k < |tags|
    ensures Fields(tags[k..], vals[k..]) == Leaf(tags[k], vals[k]) + Fields(tags[k + 1..], vals[k + 1..])
  {
    assert tags[k..][1..] == tags[k + 1..];
    assert vals[k..][1..] == vals[k + 1..];
  }

  /** A run of null fields writes nothing. */
  lemma {:induction false} FieldsOfNulls(tags: seq<Tag>, vals: seq<Option<string>>)
    requires |tags| == |vals|
    requires forall i :: 0 <= i < |vals| ==> vals[i].None?
    ensures Fields(tags, vals) == []
    decreases |tags|
  {
    if |tags| > 0 {
      FieldsOfNulls(tags[1..], vals[1..]);
    }
  }

  /** A run whose fields are null but for the one at `k` writes just that field. */
  lemma {:induction false} FieldsOnlyAt(tags: seq<Tag>, vals: seq<Option<string>>, k: int)
    requires |tags| == |vals| && 0 <= k < |tags|
    requires forall i :: 0 <= i < |vals| && i != k ==> vals[i].None?
    ensures Fields(tags, vals) == Leaf(tags[k], vals[k])
    decreases |tags|
  {
    if k == 0 {
      FieldsOfNulls(tags[1..], vals[1..]);
    } else {
      FieldsOnlyAt(tags[1..], vals[1..], k - 1);
    }
  }

  /** A run whose fields are null but for the two at `k` and `k + 1` writes just
      those two fields. */
  lemma {:induction false} FieldsOnlyAtPair(tags: seq<Tag>, vals: seq<Option<string>>, k: int)
    requires |tags| == |vals| && 0 <= k && k + 1 < |tags|
    requires forall i :: 0 <= i < |vals| && i != k && i != k + 1 ==> vals[i].None?
    ensures Fields(tags, vals) == Leaf(tags[k], vals[k]) + Leaf(tags[k + 1], vals[k + 1])
    decreases |tags|
  {
    if k == 0 {
      FieldsOnlyAt(tags[1..], vals[1..], 0);
    } else {
      FieldsOnlyAtPair(tags[1..], vals[1..], k - 1);
    }
  }

  /** Reads one scalar field from the front of `nodes`: consumes the first node
      when it is the field's element, otherwise reads the field as null. */
  function TakeLeaf(tag: Tag, nodes: seq<Node>): (r: (Option<string>, seq<Node>))
    ensures nodes == Leaf(tag, r.0) + r.1
  {
    if |nodes| > 0 && IsLeaf(nodes[0], tag) then
      var text := nodes[0].children[0].value;
      assert nodes[0].children == [Text(text)];
      assert nodes == [Elem(tag, [Text(text)])] + nodes[1..];
      (Some(text), nodes[1..])
    else (None, nodes)
  }

  /** Reads a run of scalar fields; the second component is what is left over.
      Whatever it reads, it reads back exactly the nodes it consumed. */
  function ReadFields(tags: seq<Tag>, nodes: seq<Node>): (r: (seq<Option<string>>, seq<Node>))
    ensures |r.0| == |tags|
    ensures nodes == Fields(tags, r.0) + r.1
    decreases |tags|
  {
    if |tags| == 0 then ([], nodes)
    else
      var head := TakeLeaf(tags[0], nodes);
      var tail := ReadFields(tags[1..], head.1);
      FieldsCons(tags, head.0, tail.0, tail.1);
      ([head.0] + tail.0, tail.1)
  }

  /** Writing a run whose first value is `v`, followed by `rest`: the first
      field, then the remaining fields, then `rest`. */
  lemma FieldsCons(tags: seq<Tag>, v: Option<string>, vs: seq<Option<string>>, rest: seq<Node>)
    requires |tags| == |vs| + 1
    ensures Fields(tags, [v] + vs) + rest == Leaf(tags[0], v) + (Fields(tags[1..], vs) + rest)
  {
    var vals := [v] + vs;
    assert vals[0] == v && vals[1..] == vs;
  }

  /** Encoding a run of fields with pairwise distinct names and reading it back
      recovers every field, null or not, and leaves what followed untouched. */
  lemma {:induction false} ReadFieldsOfFields(tags: seq<Tag>, vals: seq<Option<string>>, rest: seq<Node>)
    requires |tags| == |vals|
    requires Distinct(tags)
    requires StartsOutside(rest, tags)
    ensures ReadFields(tags, Fields(tags, vals) + rest) == (vals, rest)
    decreases |tags|
  {
    if |tags| > 0 {
      var tail := Fields(tags[1..], vals[1..]) + rest;
      assert Fields(tags, vals) + rest == Leaf(tags[0], vals[0]) + tail;
      assert forall k :: 0 <= k < |tags[1..]| ==> tags[1..][k] == tags[k + 1] != tags[0];
      StartsOutsideAfterFields(tags[1..], vals[1..], rest, [tags[0]]);
      TakeLeafOfLeaf(tags[0], vals[0], tail);
      assert TakeLeaf(tags[0], Fields(tags, vals) + rest) == (vals[0], tail);
      ReadFieldsOfFields(tags[1..], vals[1..], rest);
      assert [vals[0]] + vals[1..] == vals;
    } else {
      assert Fields(tags, vals) + rest == rest;
    }
  }

  /** A field's element, read back from the front, yields the field. */
  lemma TakeLeafOfLeaf(tag: Tag, v: Option<string>, rest: seq<Node>)
    requires StartsOutside(rest, [tag])
    ensures TakeLeaf(tag, Leaf(tag, v) + rest) == (v, rest)
  {
    var nodes := Leaf(tag, v) + rest;
    if v.Some? {
      assert nodes[0] == Elem(tag, [Text(v.value)]);
      assert IsLeaf(nodes[0], tag);
      assert nodes[1..] == rest;
    } else {
      assert nodes == rest;
    }
  }

  /** A run of fields whose names avoid `others`, followed by nodes that do not
      start with one of `others`, does not start with one of `others` either. */
  lemma {:induction false} StartsOutsideAfterFields(tags: seq<Tag>, vals: seq<Option<string>>, rest: seq<Node>, others: seq<Tag>)
    requires |tags| == |vals|
    requires forall k :: 0 <= k < |tags| ==> tags[k] !in others
    requires StartsOutside(rest, others)
    ensures StartsOutside(Fields(tags, vals) + rest, others)
    decreases |tags|
  {
    if |tags| > 0 && vals[0].None? {
      StartsOutsideAfterFields(tags[1..], vals[1..], rest, others);
    }
  }

  // ---------------------------------------------------------------------------
  // Wrapped lists

  /** `n` is the container `wrapper` holding, for each entry of `xs` in order,
      one element `item` whose content is that entry's encoding. */
  ghost predicate IsContainer<T>(n: Node, wrapper: Tag, item: Tag, xs: seq<T>, enc: T -> seq<Node>) {
    && n.Elem?
    && n.tag == wrapper
    && |n.children| == |xs|
    && forall i :: 0 <= i < |xs| ==> n.children[i] == Elem(item, enc(xs[i]))
  }

  /** The item elements of a list, one per entry. */
  function Items<T>(item: Tag, xs: seq<T>, enc: T -> seq<Node>): (r: seq<Node>)
    ensures |r| == |xs|
    ensures forall i :: 0 <= i < |xs| ==> r[i] == Elem(item, enc(xs[i]))
    decreases |xs|
  {
    if |xs| == 0 then []
    else [Elem(item, enc(xs[0]))] + Items(item, xs[1..], enc)
  }

  /** A wrapped list field: nothing when the list is null, otherwise one
      container element holding the items, even when there are none. */
  function Wrapped<T>(wrapper: Tag, item: Tag, xs: Option<seq<T>>, enc: T -> seq<Node>): (r: seq<Node>)
    ensures xs.None? ==> r == []
    ensures xs.Some? ==> |r| == 1 && IsContainer(r[0], wrapper, item, xs.value, enc)
  {
    match xs
    case None => []
    case Some(ys) => [Elem(wrapper, Items(item, ys, enc))]
  }

  /** Reads the children of a container: succeeds exactly when every child is
      an `item` element whose content `dec` accepts, and then yields the
      decoded entries in order. */
  function ReadItems<T>(item: Tag, nodes: seq<Node>, dec: seq<Node> -> Option<T>): (r: Option<seq<T>>)
    ensures r.Some? <==> forall i :: 0 <= i < |nodes| ==> nodes[i].Elem? && nodes[i].tag == item && dec(nodes[i].children).Some?
    ensures r.Some? ==> |r.value| == |nodes| && forall i :: 0 <= i < |nodes| ==> dec(nodes[i].children) == Some(r.value[i])
    decreases |nodes|
  {
    if |nodes| == 0 then Some([])
    else if nodes[0].Elem? && nodes[0].tag == item then
      match dec(nodes[0].children)
      case None => None
      case Some(x) =>
        match ReadItems(item, nodes[1..], dec)
        case None => None
        case Some(xs) => Some([x] + xs)
    else None
  }

  /** Reads an optional wrapped list from the front of `nodes`. The outer None
      means a container was present but malformed. */
  function ReadWrapped<T>(wrapper: Tag, item: Tag, nodes: seq<Node>, dec: seq<Node> -> Option<T>): Option<(Option<seq<T>>, seq<Node>)>
  {
    if |nodes| > 0 && nodes[0].Elem? && nodes[0].tag == wrapper then
      match ReadItems(item, nodes[0].children, dec)
      case None => None
      case Some(xs) => Some((Some(xs), nodes[1..]))
    else Some((None, nodes))
  }

  /** Encoding a wrapped list and reading it back recovers the list (null
      included) and leaves what followed untouched, provided `dec` inverts
      `enc` on every entry. */
  lemma ReadWrappedOfWrapped<T>(wrapper: Tag, item: Tag, xs: Option<seq<T>>, enc: T -> seq<Node>,
                                dec: seq<Node> -> Option<T>, rest: seq<Node>)
    requires xs.Some? ==> forall i :: 0 <= i < |xs.value| ==> dec(enc(xs.value[i])) == Some(xs.value[i])
    requires StartsOutside(rest, [wrapper])
    ensures ReadWrapped(wrapper, item, Wrapped(wrapper, item, xs, enc) + rest, dec) == Some((xs, rest))
  {
    if xs.Some? {
      var nodes := Wrapped(wrapper, item, xs, enc) + rest;
      var r := ReadItems(item, nodes[0].children, dec);
      assert r.Some?;
      assert r.value == xs.value;
      assert nodes[1..] == rest;
    } else {
      assert Wrapped(wrapper, item, xs, enc) + rest == rest;
    }
  }

  /** Whatever `ReadWrapped` accepts is exactly the encoding of what it read,
      provided `enc` re-encodes every item content that `dec` accepts. */
  lemma WrappedOfReadWrapped<T>(wrapper: Tag, item: Tag, nodes: seq<Node>, enc: T -> seq<Node>,
                                dec: seq<Node> -> Option<T>)
    requires ReadWrapped(wrapper, item, nodes, dec).Some?
    requires |nodes| > 0 && nodes[0].Elem? ==>
      forall i :: 0 <= i < |nodes[0].children| && nodes[0].children[i].Elem? && dec(nodes[0].children[i].children).Some? ==>
        enc(dec(nodes[0].children[i].children).value) == nodes[0].children[i].children
    ensures var (xs, rest) := ReadWrapped(wrapper, item, nodes, dec).value;
            nodes == Wrapped(wrapper, item, xs, enc) + rest
  {
    var (xs, rest) := ReadWrapped(wrapper, item, nodes, dec).value;
    if xs.Some? {
      var kids := nodes[0].children;
      var its := Items(item, xs.value, enc);
      assert forall i :: 0 <= i < |kids| ==> kids[i] == its[i];
      assert kids == its;
      assert nodes == [nodes[0]] + nodes[1..];
    }
  }

  // ---------------------------------------------------------------------------
  // Records: scalar fields, at most one wrapped list, more scalar fields

  /** `dec` reads back every value `enc` writes. */
  ghost predicate Inverts<T(!new)>(enc: T -> seq<Node>, dec: seq<Node> -> Option<T>) {
    forall x :: dec(enc(x)) == Some(x)
  }

  /** `enc` writes back exactly the nodes from which `dec` read a value. */
  ghost predicate Reencodes<T>(enc: T -> seq<Node>, dec: seq<Node> -> Option<T>) {
    forall ns :: dec(ns).Some? ==> enc(dec(ns).value) == ns
  }

  /** A record without a list: its scalar fields in declaration order. */
  function ReadFlat(tags: seq<Tag>, nodes: seq<Node>): (r: Option<seq<Option<string>>>)
    ensures r.Some? ==> |r.value| == |tags| && nodes == Fields(tags, r.value)
  {
    var (vals, rest) := ReadFields(tags, nodes);
    if rest == [] then
      assert nodes == Fields(tags, vals) + [];
      Some(vals)
    else None
  }

  lemma ReadFlatOfFields(tags: seq<Tag>, vals: seq<Option<string>>)
    requires |tags| == |vals|
    requires Distinct(tags)
    ensures ReadFlat(tags, Fields(tags, vals)) == Some(vals)
  {
    ReadFieldsAtEnd(tags, vals);
  }

  /** A record with a wrapped list between two runs of scalar fields. */
  function Record<T>(before: seq<Tag>, v1: seq<Option<string>>,
                     wrapper: Tag, item: Tag, xs: Option<seq<T>>, enc: T -> seq<Node>,
                     after: seq<Tag>, v2: seq<Option<string>>): seq<Node>
    requires |before| == |v1| && |after| == |v2|
  {
    Fields(before, v1) + (Wrapped(wrapper, item, xs, enc) + Fields(after, v2))
  }

  /** With a null list, a record is its two runs of scalar fields. */
  lemma RecordOfNull<T>(before: seq<Tag>, v1: seq<Option<string>>,
                        wrapper: Tag, item: Tag, xs: Option<seq<T>>, enc: T -> seq<Node>,
                        after: seq<Tag>, v2: seq<Option<string>>)
    requires |before| == |v1| && |after| == |v2|
    requires xs.None?
    ensures Record(before, v1, wrapper, item, xs, enc, after, v2) == Fields(before, v1) + Fields(after, v2)
  {
  }

  /** With a one-entry list and null scalar fields, a record is one container
      holding one item. */
  lemma RecordOfSingleton<T>(before: seq<Tag>, v1: seq<Option<string>>,
                             wrapper: Tag, item: Tag, x: T, enc: T -> seq<Node>,
                             after: seq<Tag>, v2: seq<Option<string>>)
    requires |before| == |v1| && |after| == |v2|
    requires forall i :: 0 <= i < |v1| ==> v1[i].None?
    requires forall i :: 0 <= i < |v2| ==> v2[i].None?
    ensures Record(before, v1, wrapper, item, Some([x]), enc, after, v2) == [Elem(wrapper, [Elem(item, enc(x))])]
  {
    FieldsOfNulls(before, v1);
    FieldsOfNulls(after, v2);
    assert Items(item, [x], enc) == [Elem(item, enc(x))];
  }

  function ReadRecord<T>(before: seq<Tag>, wrapper: Tag, item: Tag, dec: seq<Node> -> Option<T>,
                         after: seq<Tag>, nodes: seq<Node>)
    : (r: Option<(seq<Option<string>>, Option<seq<T>>, seq<Option<string>>)>)
    ensures r.Some? ==> |r.value.0| == |before| && |r.value.2| == |after|
  {
    var a := ReadFields(before, nodes);
    var w := ReadWrapped(wrapper, item, a.1, dec);
    if w.None? then None
    else
      var b := ReadFields(after, w.value.1);
      if b.1 == [] then Some((a.0, w.value.0, b.0)) else None
  }

  /** The names of a record's layout are pairwise distinct. */
  ghost predicate DistinctLayout(before: seq<Tag>, wrapper: Tag, after: seq<Tag>) {
    && Distinct(before)
    && Distinct(after)
    && wrapper !in before
    && wrapper !in after
    && forall k :: 0 <= k < |after| ==> after[k] !in before
  }

  /** `pos` numbers the names of a record layout in order: the run before
      the list, the list's container, then the run after it. */
  ghost predicate PositionedLayout(before: seq<Tag>, wrapper: Tag, after: seq<Tag>, pos: Tag -> int) {
    && Positioned(before, pos, 0)
    && pos(wrapper) == |before|
    && Positioned(after, pos, |before| + 1)
  }

  lemma PositionedLayoutIsDistinct(before: seq<Tag>, wrapper: Tag, after: seq<Tag>, pos: Tag -> int)
    requires PositionedLayout(before, wrapper, after, pos)
    ensures DistinctLayout(before, wrapper, after)
  {
    PositionedIsDistinct(before, pos, 0);
    PositionedIsDistinct(after, pos, |before| + 1);
  }

  lemma {:induction false} ReadRecordOfRecord<T(!new)>(before: seq<Tag>, v1: seq<Option<string>>,
                                         wrapper: Tag, item: Tag, xs: Option<seq<T>>,
                                         enc: T -> seq<Node>, dec: seq<Node> -> Option<T>,
                                         after: seq<Tag>, v2: seq<Option<string>>)
    requires |before| == |v1| && |after| == |v2|
    requires DistinctLayout(before, wrapper, after)
    requires Inverts(enc, dec)
    ensures ReadRecord(before, wrapper, item, dec, after, Record(before, v1, wrapper, item, xs, enc, after, v2))
            == Some((v1, xs, v2))
  {
    var tail := Fields(after, v2);
    var mid := Wrapped(wrapper, item, xs, enc) + tail;
    ReadFieldsBeforeWrapped(before, v1, wrapper, item, xs, enc, after, v2);
    ReadWrappedBeforeFields(wrapper, item, xs, enc, dec, after, v2);
    ReadFieldsAtEnd(after, v2);
    ReadRecordSteps(before, wrapper, item, dec, after, Fields(before, v1) + mid, v1, mid, xs, tail, v2);
  }

  lemma ReadWrappedBeforeFields<T(!new)>(wrapper: Tag, item: Tag, xs: Option<seq<T>>,
                                         enc: T -> seq<Node>, dec: seq<Node> -> Option<T>,
                                         after: seq<Tag>, v2: seq<Option<string>>)
    requires |after| == |v2|
    requires wrapper !in after
    requires Inverts(enc, dec)
    ensures ReadWrapped(wrapper, item, Wrapped(wrapper, item, xs, enc) + Fields(after, v2), dec) == Some((xs, Fields(after, v2)))
  {
    var tail := Fields(after, v2);
    StartsOutsideAfterFields(after, v2, [], [wrapper]);
    assert tail + [] == tail;
    ListInverts(xs, enc, dec);
    ReadWrappedOfWrapped(wrapper, item, xs, enc, dec, tail);
  }

  lemma ReadFieldsBeforeWrapped<T>(before: seq<Tag>, v1: seq<Option<string>>,
                                   wrapper: Tag, item: Tag, xs: Option<seq<T>>, enc: T -> seq<Node>,
                                   after: seq<Tag>, v2: seq<Option<string>>)
    requires |before| == |v1| && |after| == |v2|
    requires Distinct(before)
    requires wrapper !in before
    requires forall k :: 0 <= k < |after| ==> after[k] !in before
    ensures var mid := Wrapped(wrapper, item, xs, enc) + Fields(after, v2);
            ReadFields(before, Fields(before, v1) + mid) == (v1, mid)
  {
    WrappedStartsOutside(before, wrapper, item, xs, enc, after, v2);
    ReadFieldsOfFields(before, v1, Wrapped(wrapper, item, xs, enc) + Fields(after, v2));
  }

  lemma ReadFieldsAtEnd(tags: seq<Tag>, vals: seq<Option<string>>)
    requires |tags| == |vals|
    requires Distinct(tags)
    ensures ReadFields(tags, Fields(tags, vals)) == (vals, [])
  {
    ReadFieldsOfFields(tags, vals, []);
    assert Fields(tags, vals) + [] == Fields(tags, vals);
  }

  lemma WrappedStartsOutside<T>(before: seq<Tag>, wrapper: Tag, item: Tag, xs: Option<seq<T>>,
                                enc: T -> seq<Node>, after: seq<Tag>, v2: seq<Option<string>>)
    requires |after| == |v2|
    requires wrapper !in before
    requires forall k :: 0 <= k < |after| ==> after[k] !in before
    ensures StartsOutside(Wrapped(wrapper, item, xs, enc) + Fields(after, v2), before)
  {
    var tail := Fields(after, v2);
    StartsOutsideAfterFields(after, v2, [], before);
    assert tail + [] == tail;
  }

  /** `ReadRecord` is its three reads in sequence. */
  lemma ReadRecordSteps<T>(before: seq<Tag>, wrapper: Tag, item: Tag, dec: seq<Node> -> Option<T>,
                           after: seq<Tag>, nodes: seq<Node>, v1: seq<Option<string>>, mid: seq<Node>,
                           xs: Option<seq<T>>, tail: seq<Node>, v2: seq<Option<string>>)
    requires ReadFields(before, nodes) == (v1, mid)
    requires ReadWrapped(wrapper, item, mid, dec) == Some((xs, tail))
    requires ReadFields(after, tail) == (v2, [])
    ensures ReadRecord(before, wrapper, item, dec, after, nodes) == Some((v1, xs, v2))
  {
  }

  lemma ListInverts<T(!new)>(xs: Option<seq<T>>, enc: T -> seq<Node>, dec: seq<Node> -> Option<T>)
    requires Inverts(enc, dec)
    ensures xs.Some? ==> forall i :: 0 <= i < |xs.value| ==> dec(enc(xs.value[i])) == Some(xs.value[i])
  {
  }

  lemma ReencodesItems<T>(wrapper: Tag, item: Tag, nodes: seq<Node>, enc: T -> seq<Node>, dec: seq<Node> -> Option<T>)
    requires Reencodes(enc, dec)
    ensures |nodes| > 0 && nodes[0].Elem? ==>
      forall i :: 0 <= i < |nodes[0].children| && nodes[0].children[i].Elem? && dec(nodes[0].children[i].children).Some? ==>
        enc(dec(nodes[0].children[i].children).value) == nodes[0].children[i].children
  {
  }

  lemma RecordOfReadRecord<T>(before: seq<Tag>, wrapper: Tag, item: Tag,
                              enc: T -> seq<Node>, dec: seq<Node> -> Option<T>,
                              after: seq<Tag>, nodes: seq<Node>)
    requires Reencodes(enc, dec)
    requires ReadRecord(before, wrapper, item, dec, after, nodes).Some?
    ensures var (v1, xs, v2) := ReadRecord(before, wrapper, item, dec, after, nodes).value;
            nodes == Record(before, v1, wrapper, item, xs, enc, after, v2)
  {
    var a := ReadFields(before, nodes);
    ReencodesItems(wrapper, item, a.1, enc, dec);
    WrappedOfReadWrapped(wrapper, item, a.1, enc, dec);
    var w := ReadWrapped(wrapper, item, a.1, dec).value;
    var b := ReadFields(after, w.1);
    assert w.1 == Fields(after, b.0) + [];
  }

  // ---------------------------------------------------------------------------
  // Where a wrapped list ends up

  /** The number of elements named `tag` among `nodes` (not counting descendants). */
  function Count(nodes: seq<Node>, tag: Tag): nat
    decreases |nodes|
  {
    if |nodes| == 0 then 0
    else (if nodes[0].Elem? && nodes[0].tag == tag then 1 else 0) + Count(nodes[1..], tag)
  }

  lemma {:induction false} CountConcat(a: seq<Node>, b: seq<Node>, tag: Tag)
    ensures Count(a + b, tag) == Count(a, tag) + Count(b, tag)
    decreases |a|
  {
    if |a| > 0 {
      assert (a + b)[1..] == a[1..] + b;
      CountConcat(a[1..], b, tag);
    } else {
      assert a + b == b;
    }
  }

  /** No element among `nodes` is named `tag`. */
  ghost predicate Avoids(nodes: seq<Node>, tag: Tag) {
    Count(nodes, tag) == 0
  }

  /** A sequence that avoids `tag` has no element of that name at any position. */
  lemma {:induction false} AvoidsEverywhere(nodes: seq<Node>, tag: Tag)
    requires Avoids(nodes, tag)
    ensures forall k :: 0 <= k < |nodes| && nodes[k].Elem? ==> nodes[k].tag != tag
    decreases |nodes|
  {
    if |nodes| > 0 {
      AvoidsEverywhere(nodes[1..], tag);
      assert forall k :: 1 <= k < |nodes| ==> nodes[k] == nodes[1..][k - 1];
    }
  }

  lemma AvoidsConcat(a: seq<Node>, b: seq<Node>, tag: Tag)
    requires Avoids(a, tag) && Avoids(b, tag)
    ensures Avoids(a + b, tag)
  {
    CountConcat(a, b, tag);
  }

  lemma LeafAvoids(name: Tag, v: Option<string>, tag: Tag)
    requires name != tag
    ensures Avoids(Leaf(name, v), tag)
  {
    if v.Some? {
      var l := Leaf(name, v);
      assert Count(l[1..], tag) == 0 by { assert l[1..] == []; }
    }
  }

  /** A run of scalar fields holds no element with a name outside the run's names. */
  lemma {:induction false} FieldsAvoid(tags: seq<Tag>, vals: seq<Option<string>>, tag: Tag)
    requires |tags| == |vals|
    requires tag !in tags
    ensures Avoids(Fields(tags, vals), tag)
    decreases |tags|
  {
    if |tags| > 0 {
      FieldsAvoid(tags[1..], vals[1..], tag);
      LeafAvoids(tags[0], vals[0], tag);
      AvoidsConcat(Leaf(tags[0], vals[0]), Fields(tags[1..], vals[1..]), tag);
    }
  }

  /** The wire contract of a wrapped list field among `nodes`: exactly one
      container when the list is non-null and none when it is null, and any
      container found holds the list's entries one item element each, in order. */
  ghost predicate HoldsList<T>(nodes: seq<Node>, wrapper: Tag, item: Tag, xs: Option<seq<T>>, enc: T -> seq<Node>) {
    && Count(nodes, wrapper) == (if xs.Some? then 1 else 0)
    && forall k :: 0 <= k < |nodes| && nodes[k].Elem? && nodes[k].tag == wrapper ==>
         xs.Some? && IsContainer(nodes[k], wrapper, item, xs.value, enc)
  }

  lemma WrappedHoldsList<T>(wrapper: Tag, item: Tag, xs: Option<seq<T>>, enc: T -> seq<Node>)
    ensures HoldsList(Wrapped(wrapper, item, xs, enc), wrapper, item, xs, enc)
  {
    var w := Wrapped(wrapper, item, xs, enc);
    if xs.Some? {
      assert Count(w, wrapper) == 1 by {
        assert w[1..] == [];
      }
    }
  }

  lemma HoldsListAppend<T>(w: seq<Node>, b: seq<Node>, wrapper: Tag, item: Tag, xs: Option<seq<T>>, enc: T -> seq<Node>)
    requires HoldsList(w, wrapper, item, xs, enc) && Avoids(b, wrapper)
    ensures HoldsList(w + b, wrapper, item, xs, enc)
  {
    CountConcat(w, b, wrapper);
    AvoidsEverywhere(b, wrapper);
    var wb := w + b;
    assert forall k :: 0 <= k < |w| ==> wb[k] == w[k];
    assert forall k :: |w| <= k < |wb| ==> wb[k] == b[k - |w|];
  }

  lemma HoldsListPrepend<T>(a: seq<Node>, w: seq<Node>, wrapper: Tag, item: Tag, xs: Option<seq<T>>, enc: T -> seq<Node>)
    requires Avoids(a, wrapper) && HoldsList(w, wrapper, item, xs, enc)
    ensures HoldsList(a + w, wrapper, item, xs, enc)
  {
    CountConcat(a, w, wrapper);
    AvoidsEverywhere(a, wrapper);
    var aw := a + w;
    assert forall k :: 0 <= k < |a| ==> aw[k] == a[k];
    assert forall k :: |a| <= k < |aw| ==> aw[k] == w[k - |a|];
  }

  lemma RecordHoldsList<T>(before: seq<Tag>, v1: seq<Option<string>>,
                           wrapper: Tag, item: Tag, xs: Option<seq<T>>, enc: T -> seq<Node>,
                           after: seq<Tag>, v2: seq<Option<string>>)
    requires |before| == |v1| && |after| == |v2|
    requires wrapper !in before && wrapper !in after
    ensures HoldsList(Record(before, v1, wrapper, item, xs, enc, after, v2), wrapper, item, xs, enc)
  {
    var w := Wrapped(wrapper, item, xs, enc);
    FieldsAvoid(before, v1, wrapper);
    FieldsAvoid(after, v2, wrapper);
    WrappedHoldsList(wrapper, item, xs, enc);
    HoldsListAppend(w, Fields(after, v2), wrapper, item, xs, enc);
    HoldsListPrepend(Fields(before, v1), w + Fields(after, v2), wrapper, item, xs, enc);
  }

  // ---------------------------------------------------------------------------
  // Element order

  /** Every node is an element, and the elements come in strictly increasing
      order of `pos`. */
  ghost predicate InOrder(nodes: seq<Node>, pos: Tag -> int) {
    && (forall i :: 0 <= i < |nodes| ==> nodes[i].Elem?)
    && forall i, j :: 0 <= i < j < |nodes| ==> pos(nodes[i].tag) < pos(nodes[j].tag)
  }

  /** Every node is an element whose position under `pos` lies in [lo, hi). */
  ghost predicate WithinPositions(nodes: seq<Node>, pos: Tag -> int, lo: int, hi: int) {
    forall i :: 0 <= i < |nodes| ==> nodes[i].Elem? && lo <= pos(nodes[i].tag) < hi
  }

  lemma {:induction false} FieldsInOrder(tags: seq<Tag>, vals: seq<Option<string>>, pos: Tag -> int, offset: int)
    requires |tags| == |vals|
    requires Positioned(tags, pos, offset)
    ensures InOrder(Fields(tags, vals), pos)
    ensures WithinPositions(Fields(tags, vals), pos, offset, offset + |tags|)
    decreases |tags|
  {
    if |tags| > 0 {
      assert Positioned(tags[1..], pos, offset + 1) by {
        assert forall i :: 0 <= i < |tags[1..]| ==> tags[1..][i] == tags[i + 1];
      }
      FieldsInOrder(tags[1..], vals[1..], pos, offset + 1);
      InOrderConcat(Leaf(tags[0], vals[0]), Fields(tags[1..], vals[1..]), pos, offset + 1);
    }
  }

  lemma InOrderConcat(a: seq<Node>, b: seq<Node>, pos: Tag -> int, mid: int)
    requires InOrder(a, pos) && InOrder(b, pos)
    requires forall i :: 0 <= i < |a| ==> pos(a[i].tag) < mid
    requires forall i :: 0 <= i < |b| ==> mid <= pos(b[i].tag)
    ensures InOrder(a + b, pos)
  {
    var ab := a + b;
    assert forall i :: 0 <= i < |a| ==> ab[i] == a[i];
    assert forall i :: |a| <= i < |ab| ==> ab[i] == b[i - |a|];
  }

  lemma RecordInOrder<T>(before: seq<Tag>, v1: seq<Option<string>>,
                         wrapper: Tag, item: Tag, xs: Option<seq<T>>, enc: T -> seq<Node>,
                         after: seq<Tag>, v2: seq<Option<string>>, pos: Tag -> int)
    requires |before| == |v1| && |after| == |v2|
    requires PositionedLayout(before, wrapper, after, pos)
    ensures InOrder(Record(before, v1, wrapper, item, xs, enc, after, v2), pos)
  {
    FieldsInOrder(before, v1, pos, 0);
    WrappedInOrder(wrapper, item, xs, enc, after, v2, pos, |before|);
    InOrderConcat(Fields(before, v1), Wrapped(wrapper, item, xs, enc) + Fields(after, v2), pos, |before|);
  }

  lemma WrappedInOrder<T>(wrapper: Tag, item: Tag, xs: Option<seq<T>>, enc: T -> seq<Node>,
                          after: seq<Tag>, v2: seq<Option<string>>, pos: Tag -> int, at: int)
    requires |after| == |v2|
    requires pos(wrapper) == at
    requires Positioned(after, pos, at + 1)
    ensures InOrder(Wrapped(wrapper, item, xs, enc) + Fields(after, v2), pos)
    ensures forall i :: 0 <= i < |Wrapped(wrapper, item, xs, enc) + Fields(after, v2)| ==>
              at <= pos((Wrapped(wrapper, item, xs, enc) + Fields(after, v2))[i].tag)
  {
    var w := Wrapped(wrapper, item, xs, enc);
    var b := Fields(after, v2);
    FieldsInOrder(after, v2, pos, at + 1);
    InOrderConcat(w, b, pos, at + 1);
    var wb := w + b;
    assert forall i :: |w| <= i < |wb| ==> wb[i] == b[i - |w|];
  }
}
