/** SQL values and the total order that sorts primary keys and index keys. */
module Values {

  newtype Byte = b: int | 0 <= b < 256

  /** A value of a column; a text is the sequence of its bytes. */
  datatype Value = Null | Int(i: int) | Text(t: seq<Byte>)

  type Row = seq<Value>

  datatype Option<+T> = None | Some(value: T)

  /** Position of the alternative in the variant: NULL sorts first, texts sort last. */
  function Rank(v: Value): nat {
    match v
    case Null => 0
    case Int(_) => 1
    case Text(_) => 3
  }

  predicate LexLess(s: seq<Byte>, t: seq<Byte>) {
    if t == [] then false
    else if s == [] then true
    else if s[0] != t[0] then s[0] < t[0]
    else LexLess(s[1..], t[1..])
  }

  /** `ValueLess`: alternatives by rank, equal alternatives by content. */
  predicate Less(a: Value, b: Value) {
    if Rank(a) != Rank(b) then Rank(a) < Rank(b)
    else match a
      case Null => false
      case Int(i) => i < b.i
      case Text(t) => LexLess(t, b.t)
  }

  lemma {:induction false} LexTotal(s: seq<Byte>, t: seq<Byte>)
    ensures LexLess(s, t) || s == t || LexLess(t, s)
    ensures !(LexLess(s, t) && LexLess(t, s))
  {
    if s != [] && t != [] {
      LexTotal(s[1..], t[1..]);
      assert s == [s[0]] + s[1..] && t == [t[0]] + t[1..];
    }
  }

  lemma {:induction false} LexTransitive(s: seq<Byte>, t: seq<Byte>, u: seq<Byte>)
    requires LexLess(s, t) && LexLess(t, u)
    ensures LexLess(s, u)
  {
    if s != [] && s[0] == t[0] == u[0] {
      LexTransitive(s[1..], t[1..], u[1..]);
    }
  }

  /** A proper prefix is less; behind a common beginning the first different byte decides. */
  lemma {:induction false} LexOrder(u: seq<Byte>, a: Byte, b: Byte, x: seq<Byte>, y: seq<Byte>)
    ensures LexLess(u, u + [a] + x)
    ensures a != b ==> (LexLess(u + [a] + x, u + [b] + y) <==> a < b)
  {
    if u == [] {
      assert ([a] + x)[0] == a && ([b] + y)[0] == b && u + [a] + x == [a] + x && u + [b] + y == [b] + y;
    } else {
      LexOrder(u[1..], a, b, x, y);
      assert (u + [a] + x)[0] == u[0] && (u + [a] + x)[1..] == u[1..] + [a] + x;
      assert (u + [b] + y)[0] == u[0] && (u + [b] + y)[1..] == u[1..] + [b] + y;
    }
  }

  /** NULL comes first, then integers by size, then texts by their bytes. */
  lemma LessOrder(i: int, j: int, s: seq<Byte>, t: seq<Byte>)
    ensures Less(Null, Int(i)) && Less(Int(i), Text(s))
    ensures Less(Int(i), Int(j)) <==> i < j
    ensures Less(Text(s), Text(t)) <==> LexLess(s, t)
  {
  }

  /** Exactly one of "less", "equal" and "greater" holds, so keys can be merged and searched. */
  lemma LessTotal(a: Value, b: Value)
    ensures !Less(a, a)
    ensures Less(a, b) || a == b || Less(b, a)
    ensures !(Less(a, b) && Less(b, a))
  {
    if a.Text? { LexTotal(a.t, a.t); }
    if a.Text? && b.Text? { LexTotal(a.t, b.t); }
  }

  lemma LessTransitive(a: Value, b: Value, c: Value)
    requires Less(a, b) && Less(b, c)
    ensures Less(a, c)
  {
    if a.Text? && c.Text? { LexTransitive(a.t, b.t, c.t); }
  }
}
