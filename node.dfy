/** A hub of the logistics network (Models/Node.cs). */
module NodeModel {
  import opened Basics

  /** A node: its caller-assigned id and its display name. */
  datatype Node = Node(id: int, name: string)

  /** The decimal digit for `d < 10`. */
  function DigitChar(d: nat): char
    requires d < 10
  {
    ('0' as int + d) as char
  }

  /** Decimal digits of a natural number, most significant first, without leading zeros. */
  function NatToString(n: nat): (s: string)
    ensures |s| > 0
    decreases n
  {
    if n < 10 then [DigitChar(n)] else NatToString(n / 10) + [DigitChar(n % 10)]
  }

  /**
   * How .NET writes an int in `$"Hub_{id}"`: an optional minus sign and the
   * digits. The source formats with the current culture; the model assumes
   * one with ASCII digits and `-` as the negative sign.
   */
  function IntToString(i: int): (s: string)
    ensures |s| > 0
  {
    if i < 0 then "-" + NatToString(-i) else NatToString(i)
  }

  /** The value of a decimal digit character. */
  function DigitValue(c: char): nat
  {
    if '0' <= c <= '9' then (c as int - '0' as int) else 0
  }

  /** Reads back a string of decimal digits. */
  function ParseNat(s: string): nat
  {
    if s == [] then 0 else ParseNat(s[..|s| - 1]) * 10 + DigitValue(s[|s| - 1])
  }

  /** Reads back an optionally signed decimal integer. */
  function ParseInt(s: string): int
  {
    if s != [] && s[0] == '-' then -(ParseNat(s[1..]) as int) else ParseNat(s)
  }

  lemma {:induction false} NatToStringRoundTrip(n: nat)
    ensures ParseNat(NatToString(n)) == n
    ensures NatToString(n)[0] != '-'
    decreases n
  {
    if n >= 10 {
      NatToStringRoundTrip(n / 10);
      var s := NatToString(n);
      assert s[..|s| - 1] == NatToString(n / 10);
    }
  }

  /** Writing an int and reading it back gives the same int. */
  lemma IntToStringRoundTrip(i: int)
    ensures ParseInt(IntToString(i)) == i
  {
    if i < 0 {
      NatToStringRoundTrip(-i);
      assert IntToString(i)[1..] == NatToString(-i);
    } else {
      NatToStringRoundTrip(i);
    }
  }

  /** The name given to a node created without one. */
  function DefaultName(id: int): string
  {
    "Hub_" + IntToString(id)
  }

  /**
   * The constructor `new Node(id, name = "")`. `None` stands for a null name;
   * a null or empty name becomes `Hub_<id>`, any other name is kept verbatim.
   */
  function NewNode(id: int, name: Option<string> := Some("")): (n: Node)
    ensures n.id == id
    ensures n.name != []
    ensures name.None? || name.value == [] ==> n.name == DefaultName(id)
    ensures name.Some? && name.value != [] ==> n.name == name.value
  {
    Node(id, if name.None? || name.value == [] then DefaultName(id) else name.value)
  }

  /** A non-empty name is kept verbatim. */
  lemma NewNodeKeepsName(id: int, name: string)
    requires name != []
    ensures NewNode(id, Some(name)) == Node(id, name)
  {
  }

  /** Default names of distinct ids are distinct. */
  lemma DefaultNamesDiffer(a: int, b: int)
    requires DefaultName(a) == DefaultName(b)
    ensures a == b
  {
    assert IntToString(a) == DefaultName(a)[4..];
    assert IntToString(b) == DefaultName(b)[4..];
    IntToStringRoundTrip(a);
    IntToStringRoundTrip(b);
  }

  /**
   * `Equals(object? obj)`: `other` is `None` when obj is null or not a Node.
   * Two nodes are equal exactly when their ids are.
   */
  predicate Equals(n: Node, other: Option<Node>)
  {
    other.Some? && n.id == other.value.id
  }

  /** `GetHashCode`: the hash of the id, which for an int is the int itself. */
  function HashCode(n: Node): int
  {
    n.id
  }

  /** Equality ignores the name, and equal nodes hash alike. */
  lemma EqualsIsById(n: Node, m: Node)
    ensures Equals(n, Some(m)) <==> n.id == m.id
    ensures Equals(n, Some(m)) ==> HashCode(n) == HashCode(m)
    ensures Equals(n, Some(m)) <==> Equals(m, Some(n))
    ensures !Equals(n, None)
  {
  }
}
