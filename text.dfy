/**
 * The character-level operations the string parser relies on:
 *  - splitting at one separator character (boost::split with is_any_of of a
 *    single character and no token compression, so empty pieces are kept);
 *  - trimming white space at both ends (boost::trim);
 *  - reading an exponent (boost::lexical_cast<unsigned>);
 *  - the order std::list<std::string>::sort uses, and the list of distinct
 *    names that sort followed by unique leaves behind.
 */
module Text {
  import opened Wrappers

  /** The number of occurrences of `c` in `s`. */
  function Count(s: string, c: char): nat
  {
    if s == [] then 0 else (if s[0] == c then 1 else 0) + Count(s[1..], c)
  }

  /** The pieces of `s` between occurrences of `c`; the empty string is one empty piece. */
  function Split(s: string, c: char): (r: seq<string>)
    ensures |r| == Count(s, c) + 1
  {
    if s == [] then [[]]
    else
      var rest := Split(s[1..], c);
      if s[0] == c then [[]] + rest
      else [[s[0]] + rest[0]] + rest[1..]
  }

  /** No piece contains the separator. */
  lemma {:induction false} SplitPieces(s: string, c: char)
    ensures forall i :: 0 <= i < |Split(s, c)| ==> c !in Split(s, c)[i]
  {
    if s != [] {
      SplitPieces(s[1..], c);
    }
  }

  /** The pieces put back together with `c` between neighbours. */
  function Join(ps: seq<string>, c: char): string
    requires |ps| >= 1
  {
    if |ps| == 1 then ps[0] else ps[0] + [c] + Join(ps[1..], c)
  }

  /** Splitting loses nothing: joining the pieces gives the input back. */
  lemma {:induction false} SplitJoin(s: string, c: char)
    ensures Join(Split(s, c), c) == s
    decreases |s|
  {
    if s != [] {
      var rest := Split(s[1..], c);
      SplitJoin(s[1..], c);
      if s[0] == c {
        assert Split(s, c)[1..] == rest;
      } else {
        JoinPrepend(s[0], rest, c);
      }
      assert s == [s[0]] + s[1..];
    }
  }

  /** Prefixing the first piece prefixes the joined string. */
  lemma JoinPrepend(x: char, rest: seq<string>, c: char)
    requires |rest| >= 1
    ensures Join([[x] + rest[0]] + rest[1..], c) == [x] + Join(rest, c)
  {
    var r := [[x] + rest[0]] + rest[1..];
    assert r[0] == [x] + rest[0] && r[1..] == rest[1..];
    if |rest| > 1 {
      assert Join(r, c) == ([x] + rest[0]) + [c] + Join(rest[1..], c);
    }
  }

  /** A string without the separator is a single piece. */
  lemma {:induction false} SplitNone(s: string, c: char)
    requires c !in s
    ensures Split(s, c) == [s]
    decreases |s|
  {
    if s != [] {
      assert s[0] != c && c !in s[1..];
      SplitNone(s[1..], c);
      assert [s[0]] + s[1..] == s;
    }
  }

  /** Splitting at the first separator of `p + [c] + rest`. */
  lemma {:induction false} SplitFirst(p: string, c: char, rest: string)
    requires c !in p
    ensures Split(p + [c] + rest, c) == [p] + Split(rest, c)
    decreases |p|
  {
    if p == [] {
      assert p + [c] + rest == [c] + rest;
      assert ([c] + rest)[1..] == rest;
    } else {
      var s := p + [c] + rest;
      assert s[0] == p[0] && s[1..] == p[1..] + [c] + rest;
      SplitFirst(p[1..], c, rest);
      assert [p[0]] + p[1..] == p;
    }
  }

  /** Pieces free of the separator come back from splitting what they join to. */
  lemma {:induction false} JoinSplit(ps: seq<string>, c: char)
    requires |ps| >= 1
    requires forall i :: 0 <= i < |ps| ==> c !in ps[i]
    ensures Split(Join(ps, c), c) == ps
    decreases |ps|
  {
    if |ps| == 1 {
      SplitNone(ps[0], c);
    } else {
      JoinSplit(ps[1..], c);
      SplitFirst(ps[0], c, Join(ps[1..], c));
      assert [ps[0]] + ps[1..] == ps;
    }
  }

  /** The white space boost::trim removes: space, tab, line feed, vertical tab, form feed, carriage return. */
  predicate IsSpace(ch: char)
  {
    ch == ' ' || ch == '\t' || ch == '\n' || ch == '\U{000B}' || ch == '\U{000C}' || ch == '\r'
  }

  predicate AllSpace(s: string)
  {
    forall i :: 0 <= i < |s| ==> IsSpace(s[i])
  }

  /** Neither end is white space. */
  predicate Trimmed(s: string)
  {
    s == [] || (!IsSpace(s[0]) && !IsSpace(s[|s| - 1]))
  }

  /** boost::trim: the input without white space at either end. */
  function Trim(s: string): string
  {
    if s != [] && IsSpace(s[0]) then Trim(s[1..])
    else if s != [] && IsSpace(s[|s| - 1]) then Trim(s[..|s| - 1])
    else s
  }

  /** Trimming leaves neither end white space. */
  lemma {:induction false} TrimTrimmed(s: string)
    ensures Trimmed(Trim(s))
    decreases |s|
  {
    if s != [] && IsSpace(s[0]) {
      TrimTrimmed(s[1..]);
    } else if s != [] && IsSpace(s[|s| - 1]) {
      TrimTrimmed(s[..|s| - 1]);
    }
  }

  /** Trimming removes white space at the ends and nothing else. */
  lemma TrimSlice(s: string)
    ensures exists i, j :: 0 <= i <= j <= |s| && Trim(s) == s[i..j] && AllSpace(s[..i]) && AllSpace(s[j..])
  {
    var i, j := TrimBounds(s);
  }

  /** The bounds of the slice that trimming keeps. */
  lemma {:induction false} TrimBounds(s: string) returns (i: nat, j: nat)
    ensures i <= j <= |s| && Trim(s) == s[i..j] && AllSpace(s[..i]) && AllSpace(s[j..])
    decreases |s|
  {
    if s != [] && IsSpace(s[0]) {
      var t := s[1..];
      var i', j' := TrimBounds(t);
      SpaceCons(s[0], t[..i']);
      assert t[i'..j'] == s[i' + 1..j' + 1] && [s[0]] + t[..i'] == s[..i' + 1] && s[j' + 1..] == t[j'..];
      i, j := i' + 1, j' + 1;
    } else if s != [] && IsSpace(s[|s| - 1]) {
      var t := s[..|s| - 1];
      var i', j' := TrimBounds(t);
      SpaceSnoc(t[j'..], s[|s| - 1]);
      assert t[i'..j'] == s[i'..j'] && t[..i'] == s[..i'] && t[j'..] + [s[|s| - 1]] == s[j'..];
      i, j := i', j';
    } else {
      assert s[0..|s|] == s && AllSpace(s[..0]) && AllSpace(s[|s|..]);
      i, j := 0, |s|;
    }
  }

  lemma SpaceCons(ch: char, w: string)
    requires IsSpace(ch) && AllSpace(w)
    ensures AllSpace([ch] + w)
  {
    assert forall k :: 0 < k <= |w| ==> ([ch] + w)[k] == w[k - 1];
  }

  lemma SpaceSnoc(w: string, ch: char)
    requires AllSpace(w) && IsSpace(ch)
    ensures AllSpace(w + [ch])
  {
    assert forall k :: 0 <= k < |w| ==> (w + [ch])[k] == w[k];
  }

  /** Trimming a text padded with white space gives the text back. */
  lemma {:induction false} TrimPadded(w1: string, t: string, w2: string)
    requires AllSpace(w1) && AllSpace(w2) && t != [] && Trimmed(t)
    ensures Trim(w1 + t + w2) == t
    decreases |w1| + |w2|
  {
    var s := w1 + t + w2;
    if w1 != [] {
      assert s[0] == w1[0];
      assert s[1..] == w1[1..] + t + w2;
      TrimPadded(w1[1..], t, w2);
    } else if w2 != [] {
      assert s[0] == t[0];
      assert s[|s| - 1] == w2[|w2| - 1];
      assert s[..|s| - 1] == w1 + t + w2[..|w2| - 1];
      TrimPadded(w1, t, w2[..|w2| - 1]);
    } else {
      assert s == t;
    }
  }

  predicate IsDigit(ch: char)
  {
    '0' <= ch <= '9'
  }

  predicate AllDigits(s: string)
  {
    forall i :: 0 <= i < |s| ==> IsDigit(s[i])
  }

  /** The value of a string of decimal digits, most significant first. */
  function DigitsValue(s: string): nat
    requires AllDigits(s)
  {
    if s == [] then 0 else 10 * DigitsValue(s[..|s| - 1]) + (s[|s| - 1] as int - '0' as int)
  }

  /** The range of a 32-bit unsigned integer. */
  const UINT_RANGE: nat := 0x1_0000_0000

  /**
   * boost::lexical_cast<unsigned>: an optional sign, then at least one
   * decimal digit and nothing else, and a magnitude that fits in 32 bits;
   * a minus sign negates the magnitude modulo 2^32.  `None` is the
   * bad_lexical_cast exception.
   */
  function LexicalCastUnsigned(s: string): (r: Option<nat>)
    ensures r.Some? ==> r.value < UINT_RANGE
  {
    var signed := |s| > 0 && (s[0] == '-' || s[0] == '+');
    var digits := if signed then s[1..] else s;
    if digits == [] || !AllDigits(digits) then None
    else
      var n := DigitsValue(digits);
      if n >= UINT_RANGE then None
      else if s[0] == '-' then Some((UINT_RANGE - n) % UINT_RANGE)
      else Some(n)
  }

  /** The decimal text of `n`, without a sign or leading zeros. */
  function ShowNat(n: nat): (r: string)
    ensures |r| >= 1 && AllDigits(r)
  {
    if n < 10 then [('0' as int + n) as char]
    else ShowNat(n / 10) + [('0' as int + n % 10) as char]
  }

  /** The digits of `n` read back as `n`. */
  lemma {:induction false} ShowNatValue(n: nat)
    ensures DigitsValue(ShowNat(n)) == n
  {
    if n >= 10 {
      var s := ShowNat(n);
      assert s[..|s| - 1] == ShowNat(n / 10);
      ShowNatValue(n / 10);
    }
  }

  /** An exponent printed in decimal is read back as itself. */
  lemma CastShowNat(n: nat)
    requires n < UINT_RANGE
    ensures LexicalCastUnsigned(ShowNat(n)) == Some(n)
  {
    ShowNatValue(n);
  }

  /** A minus sign wraps around: "-n" reads as 2^32 - n, and "-0" as 0. */
  lemma CastNegated(n: nat)
    requires n < UINT_RANGE
    ensures LexicalCastUnsigned("-" + ShowNat(n)) == Some(if n == 0 then 0 else UINT_RANGE - n)
  {
    ShowNatValue(n);
    assert ("-" + ShowNat(n))[1..] == ShowNat(n);
  }

  /** std::string's operator<: lexicographic on characters, a proper prefix first. */
  predicate Below(a: string, b: string)
  {
    if a == [] then b != []
    else if b == [] then false
    else a[0] < b[0] || (a[0] == b[0] && Below(a[1..], b[1..]))
  }

  lemma {:induction false} BelowIrreflexive(a: string)
    ensures !Below(a, a)
  {
    if a != [] {
      BelowIrreflexive(a[1..]);
    }
  }

  lemma {:induction false} BelowTotal(a: string, b: string)
    ensures a == b || Below(a, b) || Below(b, a)
  {
    if a != [] && b != [] && a[0] == b[0] {
      BelowTotal(a[1..], b[1..]);
      if a[1..] == b[1..] {
        assert a == [a[0]] + a[1..] && b == [b[0]] + b[1..];
      }
    }
  }

  lemma {:induction false} BelowAsymmetric(a: string, b: string)
    ensures !(Below(a, b) && Below(b, a))
  {
    if a != [] && b != [] && a[0] == b[0] {
      BelowAsymmetric(a[1..], b[1..]);
    }
  }

  lemma {:induction false} BelowTransitive(a: string, b: string, c: string)
    requires Below(a, b) && Below(b, c)
    ensures Below(a, c)
  {
    if a != [] && a[0] == b[0] && b[0] == c[0] {
      BelowTransitive(a[1..], b[1..], c[1..]);
    }
  }

  /** Strictly increasing under Below, hence without repetitions. */
  predicate Ascending(s: seq<string>)
  {
    forall i, j :: 0 <= i < j < |s| ==> Below(s[i], s[j])
  }

  lemma AscendingDistinct(s: seq<string>)
    requires Ascending(s)
    ensures forall i, j :: 0 <= i < j < |s| ==> s[i] != s[j]
  {
    forall i, j | 0 <= i < j < |s|
      ensures s[i] != s[j]
    {
      BelowIrreflexive(s[i]);
    }
  }

  /** `x` put into its place in an ascending list, unless it is there already. */
  function InsertName(x: string, s: seq<string>): seq<string>
  {
    if s == [] then [x]
    else if x == s[0] then s
    else if Below(x, s[0]) then [x] + s
    else [s[0]] + InsertName(x, s[1..])
  }

  /** Inserting adds exactly `x` to the members. */
  lemma {:induction false} InsertNameMembers(x: string, s: seq<string>)
    ensures forall y :: y in InsertName(x, s) <==> y in s || y == x
  {
    if s != [] && x != s[0] && !Below(x, s[0]) {
      InsertNameMembers(x, s[1..]);
      assert s == [s[0]] + s[1..];
    }
  }

  /** Inserting into an ascending list keeps it ascending. */
  lemma {:induction false} InsertNameAscending(x: string, s: seq<string>)
    requires Ascending(s)
    ensures Ascending(InsertName(x, s))
  {
    if s != [] && x != s[0] {
      if Below(x, s[0]) {
        forall j | 0 < j < |s| ensures Below(x, s[j]) { BelowTransitive(x, s[0], s[j]); }
      } else {
        BelowTotal(x, s[0]);
        InsertNameAscending(x, s[1..]);
        InsertNameMembers(x, s[1..]);
        assert forall y :: y in InsertName(x, s[1..]) ==> Below(s[0], y);
      }
    }
  }

  /** What std::list::sort followed by std::list::unique leaves of a list of names. */
  function SortUnique(names: seq<string>): seq<string>
  {
    if names == [] then [] else InsertName(names[0], SortUnique(names[1..]))
  }

  /** Sorting and removing duplicates keeps exactly the names there are. */
  lemma {:induction false} SortUniqueMembers(names: seq<string>)
    ensures forall y :: y in SortUnique(names) <==> y in names
  {
    if names != [] {
      SortUniqueMembers(names[1..]);
      InsertNameMembers(names[0], SortUnique(names[1..]));
      assert names == [names[0]] + names[1..];
    }
  }

  /** The names come out strictly ascending, so without duplicates. */
  lemma {:induction false} SortUniqueAscending(names: seq<string>)
    ensures Ascending(SortUnique(names))
  {
    if names != [] {
      SortUniqueAscending(names[1..]);
      InsertNameAscending(names[0], SortUnique(names[1..]));
    }
  }

  /** The head of an ascending list is below every other element. */
  lemma AscendingHead(a: seq<string>, y: string)
    requires Ascending(a) && y in a
    ensures y == a[0] || Below(a[0], y)
  {
  }

  /** The ascending list of distinct names is determined by the names: any sorting method gives SortUnique. */
  lemma {:induction false} AscendingUnique(a: seq<string>, b: seq<string>)
    requires Ascending(a) && Ascending(b)
    requires forall y :: y in a <==> y in b
    ensures a == b
    decreases |a|
  {
    assert a == [] || a[0] in a;
    assert b == [] || b[0] in b;
    if a != [] && b != [] {
      AscendingHead(b, a[0]);
      AscendingHead(a, b[0]);
      BelowAsymmetric(a[0], b[0]);
      AscendingDistinct(a);
      AscendingDistinct(b);
      forall y
        ensures y in a[1..] <==> y in b[1..]
      {
        if y in a[1..] {
          var i :| 1 <= i < |a| && a[i] == y;
          assert y != a[0] && y in b;
        }
        if y in b[1..] {
          var i :| 1 <= i < |b| && b[i] == y;
          assert y != b[0] && y in a;
        }
      }
      AscendingUnique(a[1..], b[1..]);
      assert a == [a[0]] + a[1..] && b == [b[0]] + b[1..];
    }
  }
}
