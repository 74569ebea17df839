/** The `?` placeholders of a statement text. The driver binds the i-th
    parameter to the i-th `?`, so a text must carry exactly one `?` per
    parameter for every value to land in its column. */
module Binding {

  /** The number of `?` characters in `s`. */
  function Placeholders(s: string): nat {
    if s == [] then 0 else (if s[0] == '?' then 1 else 0) + Placeholders(s[1..])
  }

  lemma {:induction false} PlaceholdersConcat(a: string, b: string)
    ensures Placeholders(a + b) == Placeholders(a) + Placeholders(b)
  {
    if a == [] {
      assert a + b == b;
    } else {
      assert (a + b)[0] == a[0];
      assert (a + b)[1..] == a[1..] + b;
      PlaceholdersConcat(a[1..], b);
    }
  }

  /** A piece without `?` holds no placeholder. */
  lemma {:induction false} Unmarked(p: string)
    requires '?' !in p
    ensures Placeholders(p) == 0
  {
    if p != [] {
      assert p[0] in p;
      Unmarked(p[1..]);
    }
  }

  lemma Step(a: string, p: string)
    requires '?' !in p
    ensures Placeholders(a + "?" + p) == Placeholders(a) + 1
  {
    Unmarked(p);
    PlaceholdersConcat(a, "?");
    PlaceholdersConcat(a + "?", p);
  }

  /** A value spliced between two pieces without `?` brings its own `?`s
      and no others. */
  lemma Spliced(a: string, x: string, b: string)
    requires '?' !in a && '?' !in b
    ensures Placeholders(a + x + b) == Placeholders(x)
  {
    Unmarked(a);
    Unmarked(b);
    PlaceholdersConcat(a, x);
    PlaceholdersConcat(a + x, b);
  }

  // The shapes of the write texts: pieces without `?` joined by single `?`s.

  lemma Marked1(p0: string, p1: string)
    requires '?' !in p0 && '?' !in p1
    ensures Placeholders(p0 + "?" + p1) == 1
  {
    Unmarked(p0);
    Step(p0, p1);
  }

  lemma Marked2(p0: string, p1: string, p2: string)
    requires '?' !in p0 && '?' !in p1 && '?' !in p2
    ensures Placeholders(p0 + "?" + p1 + "?" + p2) == 2
  {
    Marked1(p0, p1);
    Step(p0 + "?" + p1, p2);
  }

  lemma Marked3(p0: string, p1: string, p2: string, p3: string)
    requires '?' !in p0 && '?' !in p1 && '?' !in p2 && '?' !in p3
    ensures Placeholders(p0 + "?" + p1 + "?" + p2 + "?" + p3) == 3
  {
    Marked2(p0, p1, p2);
    Step(p0 + "?" + p1 + "?" + p2, p3);
  }

  lemma Marked4(p0: string, p1: string, p2: string, p3: string, p4: string)
    requires '?' !in p0 && '?' !in p1 && '?' !in p2 && '?' !in p3 && '?' !in p4
    ensures Placeholders(p0 + "?" + p1 + "?" + p2 + "?" + p3 + "?" + p4) == 4
  {
    Marked3(p0, p1, p2, p3);
    Step(p0 + "?" + p1 + "?" + p2 + "?" + p3, p4);
  }

  lemma Marked5(p0: string, p1: string, p2: string, p3: string, p4: string, p5: string)
    requires '?' !in p0 && '?' !in p1 && '?' !in p2 && '?' !in p3 && '?' !in p4 && '?' !in p5
    ensures Placeholders(p0 + "?" + p1 + "?" + p2 + "?" + p3 + "?" + p4 + "?" + p5) == 5
  {
    Marked4(p0, p1, p2, p3, p4);
    Step(p0 + "?" + p1 + "?" + p2 + "?" + p3 + "?" + p4, p5);
  }
}
