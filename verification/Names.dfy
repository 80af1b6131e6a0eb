/** Names of register tree nodes: decimal suffixes, dotted paths, lower case, order. */
module Names {

  // Decimal printing

  function Digit(d: nat): char
    requires d < 10
  {
    '0' + d as char
  }

  function Decimal(n: nat): (s: string)
    ensures s != ""
  {
    if n < 10 then [Digit(n)] else Decimal(n / 10) + [Digit(n % 10)]
  }

  /** The number that decimal digits denote. */
  function Reads(s: string): int {
    if s == "" then 0 else 10 * Reads(s[..|s| - 1]) + (s[|s| - 1] as int - '0' as int)
  }

  /** Printing is base ten: the digits read back as the number, and none of them is wasted. */
  lemma {:induction false} DecimalReadsBack(n: nat)
    ensures Reads(Decimal(n)) == n
    ensures forall c <- Decimal(n) :: IsDigit(c)
    ensures n > 0 ==> Decimal(n)[0] != '0'
    ensures n == 0 ==> Decimal(n) == "0"
  {
    var s := Decimal(n);
    if n < 10 {
      assert s[..0] == "";
    } else {
      DecimalReadsBack(n / 10);
      assert s[..|s| - 1] == Decimal(n / 10);
    }
  }

  /** Different numbers print differently. */
  lemma DecimalIsInjective(a: nat, b: nat)
    requires Decimal(a) == Decimal(b)
    ensures a == b
  {
    DecimalReadsBack(a);
    DecimalReadsBack(b);
  }

  predicate IsDigit(c: char) {
    '0' <= c <= '9'
  }

  /** The name of the i-th instance that collided. */
  function Instance(name: string, i: nat): (s: string)
    ensures s != name
  {
    assert |name + Decimal(i)| > |name|;
    name + Decimal(i)
  }

  lemma InstanceIsInjective(name: string, i: nat, j: nat)
    requires Instance(name, i) == Instance(name, j)
    ensures i == j
  {
    assert Decimal(i) == Instance(name, i)[|name|..];
    assert Decimal(j) == Instance(name, j)[|name|..];
    DecimalIsInjective(i, j);
  }

  /** The least free suffix at or above `i`. */
  function LeastFree(used: set<string>, name: string, i: nat): (r: nat)
    ensures i <= r && Instance(name, r) !in used
    ensures forall j | i <= j < r :: Instance(name, j) in used
    decreases |used|
  {
    if Instance(name, i) !in used then i
    else
      var r := LeastFree(used - {Instance(name, i)}, name, i + 1);
      assert Instance(name, r) !in used by {
        if Instance(name, r) in used {
          assert Instance(name, r) == Instance(name, i);
          InstanceIsInjective(name, r, i);
        }
      }
      r
  }

  /** The name itself when it is free, else the instance with the least free suffix. */
  function FreshName(used: set<string>, name: string): (r: string)
    ensures r !in used
  {
    if name !in used then name else Instance(name, LeastFree(used, name, 0))
  }

  // Lower case (ASCII letters)

  function LowerChar(c: char): char {
    if 'A' <= c <= 'Z' then 'a' + (c - 'A') else c
  }

  function Lower(s: string): (r: string)
    ensures |r| == |s|
  {
    if s == "" then "" else [LowerChar(s[0])] + Lower(s[1..])
  }

  predicate IsLower(s: string) {
    Lower(s) == s
  }

  lemma {:induction false} LowerTwice(s: string)
    ensures IsLower(Lower(s))
  {
    if s != "" {
      LowerTwice(s[1..]);
      assert Lower(s)[1..] == Lower(s[1..]);
    }
  }

  lemma {:induction false} LowerIsCharwise(s: string)
    ensures forall i | 0 <= i < |s| :: Lower(s)[i] == LowerChar(s[i])
  {
    if s != "" {
      LowerIsCharwise(s[1..]);
    }
  }

  /** The letters that have a lower case, and theirs. */
  lemma LowerLetters(i: nat)
    requires i < 26
    ensures LowerChar("ABCDEFGHIJKLMNOPQRSTUVWXYZ"[i]) == "abcdefghijklmnopqrstuvwxyz"[i]
  {
  }

  lemma OtherCharactersStay(c: char)
    requires c !in "ABCDEFGHIJKLMNOPQRSTUVWXYZ"
    ensures LowerChar(c) == c
  {
    if 'A' <= c <= 'Z' {
      CapitalIsLetter(c);
    }
  }

  lemma CapitalIsLetter(c: char)
    requires 'A' <= c <= 'Z'
    ensures c in "ABCDEFGHIJKLMNOPQRSTUVWXYZ"
  {
    assert "ABCDEFGHIJKLMNOPQRSTUVWXYZ"[c as int - 'A' as int] == c;
  }

  lemma UnchangedIsLower(s: string)
    requires forall c <- s :: LowerChar(c) == c
    ensures IsLower(s)
  {
    LowerIsCharwise(s);
  }

  predicate AllLower(path: seq<string>) {
    forall name <- path :: IsLower(name)
  }

  // Dotted paths

  /** The pieces between the dots; always at least one. */
  function Split(s: string): (segments: seq<string>)
    ensures segments != []
    ensures forall segment <- segments :: '.' !in segment
  {
    if s == "" then [""]
    else
      var rest := Split(s[1..]);
      if s[0] == '.' then [""] + rest
      else
        assert forall segment | segment in rest[1..] :: segment in rest;
        [[s[0]] + rest[0]] + rest[1..]
  }

  function Join(segments: seq<string>): string
    requires segments != []
  {
    if |segments| == 1 then segments[0] else segments[0] + "." + Join(segments[1..])
  }

  lemma {:induction false} SplitPlain(s: string)
    requires '.' !in s
    ensures Split(s) == [s]
  {
    if s != "" {
      SplitPlain(s[1..]);
      assert [s[0]] + s[1..] == s;
    }
  }

  lemma {:induction false} SplitAtDot(s: string, rest: string)
    requires '.' !in s
    ensures Split(s + "." + rest) == [s] + Split(rest)
  {
    var whole := s + "." + rest;
    if s == "" {
      assert whole[1..] == rest;
    } else {
      assert whole[1..] == s[1..] + "." + rest;
      SplitAtDot(s[1..], rest);
      assert [s[0]] + s[1..] == s;
    }
  }

  /** A dotted path splits into the names it was joined from. */
  lemma {:induction false} SplitJoin(segments: seq<string>)
    requires segments != []
    requires forall segment <- segments :: '.' !in segment
    ensures Split(Join(segments)) == segments
  {
    if |segments| == 1 {
      SplitPlain(segments[0]);
    } else {
      SplitAtDot(segments[0], Join(segments[1..]));
      SplitJoin(segments[1..]);
    }
  }

  // Alphabetical order

  predicate Before(s: string, t: string) {
    t != "" && (s == "" || s[0] < t[0] || (s[0] == t[0] && Before(s[1..], t[1..])))
  }

  /** The first difference decides, and a name comes before its own continuations. */
  lemma {:induction false} FirstDifferenceDecides(prefix: string, c: char, s: string, d: char, t: string)
    requires c != d
    ensures Before(prefix + [c] + s, prefix + [d] + t) <==> c < d
    ensures Before(prefix, prefix + [c] + s) && !Before(prefix + [c] + s, prefix)
  {
    if prefix != "" {
      var rest := prefix[1..];
      FirstDifferenceDecides(rest, c, s, d, t);
      assert (prefix + [c] + s)[1..] == rest + [c] + s && (prefix + [d] + t)[1..] == rest + [d] + t;
    }
  }

  lemma {:induction false} BeforeIsTotal(s: string, t: string)
    ensures s == t || Before(s, t) || Before(t, s)
    ensures !(Before(s, t) && Before(t, s))
    ensures !Before(s, s)
    decreases |s|
  {
    if s != "" && t != "" {
      BeforeIsTotal(s[1..], t[1..]);
      BeforeIsTotal(s[1..], s[1..]);
      assert s == [s[0]] + s[1..] && t == [t[0]] + t[1..];
    } else if s != "" {
      BeforeIsTotal(s[1..], s[1..]);
    }
  }

  lemma {:induction false} BeforeIsTransitive(s: string, t: string, u: string)
    requires Before(s, t) && Before(t, u)
    ensures Before(s, u)
    decreases |s|
  {
    if s != "" && s[0] == t[0] == u[0] {
      BeforeIsTransitive(s[1..], t[1..], u[1..]);
    }
  }

  predicate IsLeast(s: string, names: set<string>) {
    s in names && forall t <- names :: s == t || Before(s, t)
  }

  lemma {:induction false} LeastExists(names: set<string>) returns (s: string)
    requires names != {}
    ensures IsLeast(s, names)
    decreases |names|
  {
    var x :| x in names;
    if names == {x} {
      s := x;
    } else {
      var y := LeastExists(names - {x});
      BeforeIsTotal(x, y);
      s := if Before(x, y) then x else y;
      forall t | t in names ensures s == t || Before(s, t) {
        if t != x && s == x && t != y {
          BeforeIsTransitive(x, y, t);
        }
      }
    }
  }

  /** The names in alphabetical order. */
  function Sorted(names: set<string>): (s: seq<string>)
    ensures |s| == |names|
    ensures forall name :: name in s <==> name in names
    ensures forall i, j | 0 <= i < j < |s| :: s[i] != s[j]
    decreases |names|
  {
    if names == {} then []
    else
      var witnessed := LeastOf(names);
      [witnessed] + Sorted(names - {witnessed})
  }

  /** Each name comes before all the later ones. */
  lemma {:induction false} SortedIsAlphabetical(names: set<string>)
    ensures forall i, j | 0 <= i < j < |names| :: Before(Sorted(names)[i], Sorted(names)[j])
    decreases |names|
  {
    hide Before;
    if names != {} {
      var least := LeastOf(names);
      var rest := Sorted(names - {least});
      SortedIsAlphabetical(names - {least});
      assert Sorted(names) == [least] + rest;
      forall i, j | 0 <= i < j < |names| ensures Before(Sorted(names)[i], Sorted(names)[j]) {
        assert Sorted(names)[j] == rest[j - 1];
        assert rest[j - 1] in rest;
      }
    }
  }

  function LeastOf(names: set<string>): (s: string)
    requires names != {}
    ensures IsLeast(s, names)
  {
    assert exists s :: IsLeast(s, names) by {
      var s := LeastExists(names);
    }
    assert forall s, t | IsLeast(s, names) && IsLeast(t, names) :: s == t by {
      forall s, t | IsLeast(s, names) && IsLeast(t, names) ensures s == t {
        BeforeIsTotal(s, t);
      }
    }
    var s :| s in names && IsLeast(s, names);
    s
  }
}
