/** Values shared by every component of the model. */
module Common {
  /** A UUID.  Zero stands for uuid.Nil. */
  type Uuid = int

  const NIL: Uuid := 0

  /** One minute, in the unit of the clock. */
  const MINUTE: int := 60_000_000_000

  datatype Option<+T> = None | Some(value: T)

  datatype Result<+T> = Ok(value: T) | Err(error: string)

  predicate IsSpace(c: char) {
    c == ' ' || c == '\t' || c == '\n' || c == '\U{B}' || c == '\U{C}' || c == '\r'
  }

  /** Tab, line feed, vertical tab, form feed, carriage return and space. */
  lemma SpacesExactly(c: char)
    ensures IsSpace(c) <==> 9 <= c as int <= 13 || c as int == 32
  {
  }

  /** strings.TrimSpace on the ASCII blanks. */
  function Trim(s: string): (t: string)
    ensures |t| <= |s|
    ensures t != "" ==> !IsSpace(t[0]) && !IsSpace(t[|t| - 1])
  {
    if s == "" then ""
    else if IsSpace(s[0]) then Trim(s[1..])
    else if IsSpace(s[|s| - 1]) then Trim(s[..|s| - 1])
    else s
  }

  ghost predicate BlankOutside(s: string, i: nat, j: nat) {
    i <= j <= |s| && (forall k | 0 <= k < i :: IsSpace(s[k])) && (forall k | j <= k < |s| :: IsSpace(s[k]))
  }

  /** Trimming removes the blanks on both sides and nothing else. */
  lemma {:induction false} TrimSlice(s: string) returns (i: nat, j: nat)
    ensures BlankOutside(s, i, j) && Trim(s) == s[i..j]
    decreases |s|
  {
    if s == "" {
      i, j := 0, 0;
    } else if IsSpace(s[0]) {
      i, j := TrimSlice(s[1..]);
      assert forall k | 0 < k < |s| :: s[k] == s[1..][k - 1];
      i, j := i + 1, j + 1;
    } else if IsSpace(s[|s| - 1]) {
      i, j := TrimSlice(s[..|s| - 1]);
    } else {
      i, j := 0, |s|;
    }
  }

  lemma TrimExactly(s: string)
    ensures exists i: nat, j: nat :: BlankOutside(s, i, j) && Trim(s) == s[i..j]
    ensures Trim(s) == "" <==> forall c | c in s :: IsSpace(c)
  {
    var i, j := TrimSlice(s);
    if Trim(s) == "" {
      assert i == j;
    } else {
      assert s[i] == Trim(s)[0] && s[i] in s;
    }
  }

  ghost predicate NoDuplicates<T>(s: seq<T>) {
    forall i, j | 0 <= i < j < |s| :: s[i] != s[j]
  }

  /** Some element of s: what the next turn of a Go "range" over a map yields. */
  method Pick<T>(s: set<T>) returns (x: T)
    requires s != {}
    ensures x in s
  {
    x :| x in s;
  }

  /** The elements of a set, in the order of an iteration. */
  method Enumerate<T>(s: set<T>) returns (r: seq<T>)
    ensures NoDuplicates(r)
    ensures forall x :: x in r <==> x in s
  {
    r := [];
    var rest := s;
    while rest != {}
      invariant rest <= s && NoDuplicates(r)
      invariant forall x :: x in r <==> x in s && x !in rest
      decreases |rest|
    {
      var x := Pick(rest);
      r, rest := r + [x], rest - {x};
    }
  }

  /** The elements of a set, in some order. */
  ghost function Listed<T(!new)>(s: set<T>): (r: seq<T>)
    ensures NoDuplicates(r) && forall x :: x in r <==> x in s
  {
    if s == {} then []
    else
      var x :| x in s;
      [x] + Listed(s - {x})
  }

  /** The elements of s, as a set. */
  function Elements<T>(s: seq<T>): set<T> {
    set x | x in s
  }

  lemma ElementsOfPrefix<T>(s: seq<T>, k: nat)
    requires k < |s|
    ensures Elements(s[..0]) == {} && Elements(s[..|s|]) == Elements(s)
    ensures Elements(s[..k + 1]) == Elements(s[..k]) + {s[k]}
  {
    assert s[..|s|] == s;
  }

  /** A sequence without repetitions lists as many elements as its set has. */
  lemma {:induction false} DistinctSize<T>(s: seq<T>)
    requires NoDuplicates(s)
    ensures |Elements(s)| == |s|
  {
    if s != [] {
      var t := s[..|s| - 1];
      DistinctSize(t);
      assert Elements(s) == Elements(t) + {s[|s| - 1]};
      assert s[|s| - 1] !in Elements(t);
    }
  }

  lemma SubsetSize<T>(a: set<T>, b: set<T>)
    requires a <= b
    ensures |a| <= |b|
  {
    assert b == a + (b - a);
  }

  /** A positive number above all of a set. */
  lemma {:induction false} Above(used: set<int>) returns (n: nat)
    ensures n > 0 && forall k | k in used :: k < n
    decreases used
  {
    if k: int :| k in used {
      var m := Above(used - {k});
      n := if m > k then m else k + 1;
      assert forall x | x in used :: x == k || x in used - {k};
    } else {
      n := 1;
    }
  }
}
