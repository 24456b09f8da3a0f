/** Port connections and their order: by object, port and index, then by the other end. */
module PortOrder {
  import opened Sorting

  datatype Port = Port(objectName: string, portName: string, index: nat)

  /** A connection as listed from one of its ends. */
  datatype Connection = Connection(from: Port, to: Port)

  function Flip(c: Connection): Connection {
    Connection(c.to, c.from)
  }

  function CompareStrings(a: string, b: string): int {
    if a == [] then (if b == [] then 0 else -1)
    else if b == [] then 1
    else if a[0] < b[0] then -1
    else if b[0] < a[0] then 1
    else CompareStrings(a[1..], b[1..])
  }

  /** The first difference decides. */
  function Then(first: int, second: int): int {
    if first != 0 then first else second
  }

  function ComparePorts(p: Port, q: Port): int {
    Then(CompareStrings(p.objectName, q.objectName),
      Then(CompareStrings(p.portName, q.portName),
        if p.index < q.index then -1 else if q.index < p.index then 1 else 0))
  }

  predicate Leq(c: Connection, d: Connection) {
    Then(ComparePorts(c.from, d.from), ComparePorts(c.to, d.to)) <= 0
  }

  lemma {:induction false} StringsOrdered(a: string, b: string, c: string)
    ensures CompareStrings(a, b) == -CompareStrings(b, a)
    ensures CompareStrings(a, b) == 0 <==> a == b
    ensures CompareStrings(a, b) <= 0 && CompareStrings(b, c) <= 0 ==> CompareStrings(a, c) <= 0
    decreases |a| + |b| + |c|
  {
    if a != [] && b != [] {
      StringsOrdered(a[1..], b[1..], if c == [] then c else c[1..]);
      assert a == [a[0]] + a[1..] && b == [b[0]] + b[1..];
    }
  }

  lemma {:induction false} PortsOrdered(p: Port, q: Port, r: Port)
    ensures ComparePorts(p, q) == -ComparePorts(q, p)
    ensures ComparePorts(p, q) == 0 <==> p == q
    ensures ComparePorts(p, q) <= 0 && ComparePorts(q, r) <= 0 ==> ComparePorts(p, r) <= 0
  {
    StringsOrdered(p.objectName, q.objectName, r.objectName);
    StringsOrdered(p.portName, q.portName, r.portName);
    StringsOrdered(q.objectName, r.objectName, p.objectName);
    StringsOrdered(p.objectName, r.objectName, q.objectName);
    StringsOrdered(q.portName, r.portName, p.portName);
    StringsOrdered(p.portName, r.portName, q.portName);
  }

  // What the order is.

  /** At place k the two strings part: a ends there, or has the smaller character. */
  ghost predicate PartAt(a: string, b: string, k: nat) {
    k <= |a| && k < |b| && a[..k] == b[..k] && (k == |a| || a[k] < b[k])
  }

  /** The order of a dictionary. */
  ghost predicate Before(a: string, b: string) {
    exists k: nat :: PartAt(a, b, k)
  }

  lemma {:induction false} StringsByFirstDifference(a: string, b: string)
    ensures CompareStrings(a, b) < 0 <==> Before(a, b)
    ensures CompareStrings(a, b) == 0 <==> a == b
  {
    if a == [] {
      assert b != [] ==> PartAt(a, b, 0);
    } else if b != [] {
      assert a == [a[0]] + a[1..] && b == [b[0]] + b[1..];
      StringsByFirstDifference(a[1..], b[1..]);
      assert a[0] < b[0] ==> PartAt(a, b, 0);
      if a[0] == b[0] {
        PartingMoves(a, b);
      } else if k: nat :| PartAt(a, b, k) {
        assert k > 0 ==> a[..k][0] == b[..k][0];
      }
    }
  }

  lemma {:induction false} PartingMoves(a: string, b: string)
    requires a != [] && b != [] && a[0] == b[0]
    ensures Before(a, b) <==> Before(a[1..], b[1..])
  {
    if k: nat :| PartAt(a, b, k) {
      assert k > 0;
      assert a[1..][..k - 1] == a[..k][1..] && b[1..][..k - 1] == b[..k][1..];
      assert PartAt(a[1..], b[1..], k - 1);
    }
    if k: nat :| PartAt(a[1..], b[1..], k) {
      assert a[..k + 1] == [a[0]] + a[1..][..k] && b[..k + 1] == [b[0]] + b[1..][..k];
      assert PartAt(a, b, k + 1);
    }
  }

  /** By object, then by port, then by index. */
  ghost predicate PortBefore(p: Port, q: Port) {
    || Before(p.objectName, q.objectName)
    || (p.objectName == q.objectName && Before(p.portName, q.portName))
    || (p.objectName == q.objectName && p.portName == q.portName && p.index < q.index)
  }

  lemma {:induction false} PortsByFirstDifference(p: Port, q: Port)
    ensures ComparePorts(p, q) < 0 <==> PortBefore(p, q)
    ensures ComparePorts(p, q) == 0 <==> p == q
  {
    StringsByFirstDifference(p.objectName, q.objectName);
    StringsByFirstDifference(p.portName, q.portName);
  }

  /** By the near end, then by the far end. */
  lemma {:induction false} LeqExactly(c: Connection, d: Connection)
    ensures Leq(c, d) <==> PortBefore(c.from, d.from) || (c.from == d.from && (PortBefore(c.to, d.to) || c.to == d.to))
  {
    PortsByFirstDifference(c.from, d.from);
    PortsByFirstDifference(c.to, d.to);
  }

  lemma {:induction false} ConnectionsOrdered()
    ensures TotalOrder(Leq)
  {
    forall c, d
      ensures Leq(c, d) || Leq(d, c)
    {
      PortsOrdered(c.from, d.from, c.from);
      PortsOrdered(c.to, d.to, c.to);
    }
    forall c, d, e | Leq(c, d) && Leq(d, e)
      ensures Leq(c, e)
    {
      PortsOrdered(c.from, d.from, e.from);
      PortsOrdered(d.from, e.from, c.from);
      PortsOrdered(c.from, e.from, d.from);
      PortsOrdered(c.to, d.to, e.to);
    }
  }
}
