/**
 * The virtual document: the value that a view function returns and that the
 * differ compares (crates/roko-html/src/lib.rs).
 *
 * The snapshots of the repository disagree on which attributes exist, so the
 * `Attribute` datatype below is the union of all of them: roko-html declares
 * `OnClick` and `Class`, roko-dom uses `OnClick`, `OnMount`, `OnUnmount` and
 * `Custom`, roko-render uses `OnClick`, `Class` and `Style`.
 */
module RokoHtml {
  import opened Wrappers

  datatype Attribute<M> =
    | OnClick(click: M)
    | OnMount(mount: M)
    | OnUnmount(unmount: M)
    | Custom(name: string, value: string)
    | Class(className: string)
    | Style(css: string)

  /** A node carries a tag, an optional identity key, and ordered attributes and children. */
  datatype Html<M> =
    | Node(tag: string, key: Option<string>, attributes: seq<Attribute<M>>, children: seq<Html<M>>)
    | Text(text: string)

  /** Rust's `usize`: the range of `From<usize>` conversions. */
  newtype Usize = x: int | 0 <= x < 0x1_0000_0000_0000_0000

  /** The derived `PartialEq` on attributes: same variant and equal payload. */
  predicate AttributeEq<M(==)>(a: Attribute<M>, b: Attribute<M>) {
    match (a, b)
    case (OnClick(x), OnClick(y)) => x == y
    case (OnMount(x), OnMount(y)) => x == y
    case (OnUnmount(x), OnUnmount(y)) => x == y
    case (Custom(n, v), Custom(n', v')) => n == n' && v == v'
    case (Class(x), Class(y)) => x == y
    case (Style(x), Style(y)) => x == y
    case _ => false
  }

  /** Attribute equality is structural: the derived comparison is exactly value equality. */
  lemma AttributeEqIsEquality<M>(a: Attribute<M>, b: Attribute<M>)
    ensures AttributeEq(a, b) <==> a == b
  {
  }

  /** `node(tag, attributes, children)`: a key-less node holding exactly its arguments. */
  function NodeOf<M>(tag: string, attributes: seq<Attribute<M>>, children: seq<Html<M>>): (r: Html<M>)
    ensures r.Node? && r.tag == tag && r.key == None
    ensures r.attributes == attributes && r.children == children
  {
    Node(tag, None, attributes, children)
  }

  /** `Html::node(tag, id, attributes, children)`, the keyed constructor that roko-dom calls. */
  function KeyedNodeOf<M>(tag: string, key: Option<string>, attributes: seq<Attribute<M>>, children: seq<Html<M>>): (r: Html<M>)
    ensures r.Node? && r.tag == tag && r.key == key
    ensures r.attributes == attributes && r.children == children
  {
    Node(tag, key, attributes, children)
  }

  /** `From<String>` and `From<&str>`: both give a text leaf holding the string itself. */
  function FromString<M>(s: string): (r: Html<M>)
    ensures r.Text? && r.text == s
  {
    Text(s)
  }

  /** `From<usize>`: a text leaf holding the decimal representation of the number. */
  function FromUsize<M>(n: Usize): (r: Html<M>)
    ensures r.Text? && IsDecimal(r.text) && DecimalValue(r.text) == n as int
  {
    DecimalRoundTrip(n as nat);
    Text(Decimal(n as nat))
  }

  /** `text(x)` is `x.into()`: for a string, the text leaf of that string. */
  function TextOfString<M>(s: string): (r: Html<M>)
    ensures r == FromString(s) && r == Text(s)
  {
    FromString(s)
  }

  /** `text(x)` for a number: the text leaf of its decimal representation. */
  function TextOfUsize<M>(n: Usize): (r: Html<M>)
    ensures r == FromUsize(n)
  {
    FromUsize(n)
  }

  // ----- decimal representation, as `usize::to_string` produces it -----

  function DigitChar(d: nat): (c: char)
    requires d < 10
    ensures '0' <= c <= '9' && c as int - '0' as int == d
  {
    ('0' as int + d) as char
  }

  /** The shortest decimal spelling of `n`, most significant digit first. */
  function Decimal(n: nat): (s: string)
    decreases n
  {
    if n < 10 then [DigitChar(n)] else Decimal(n / 10) + [DigitChar(n % 10)]
  }

  /** A non-empty string of digits without a leading zero, except "0" itself. */
  predicate IsDecimal(s: string) {
    && |s| > 0
    && (forall i :: 0 <= i < |s| ==> '0' <= s[i] <= '9')
    && (s[0] == '0' ==> s == "0")
  }

  /** The number a string of digits denotes. */
  function DecimalValue(s: string): int
    decreases |s|
  {
    if s == [] then 0 else 10 * DecimalValue(s[..|s| - 1]) + (s[|s| - 1] as int - '0' as int)
  }

  /** Printing then reading a number gives the number back, and the spelling is canonical. */
  lemma {:induction false} DecimalRoundTrip(n: nat)
    ensures IsDecimal(Decimal(n)) && DecimalValue(Decimal(n)) == n
    decreases n
  {
    if n >= 10 {
      DecimalRoundTrip(n / 10);
      var s := Decimal(n);
      assert s[..|s| - 1] == Decimal(n / 10);
    }
  }

  /** Different numbers print differently. */
  lemma DecimalInjective(m: nat, n: nat)
    requires Decimal(m) == Decimal(n)
    ensures m == n
  {
    DecimalRoundTrip(m);
    DecimalRoundTrip(n);
  }
}
