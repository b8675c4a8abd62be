/** Slash-separated keys: when one key is under another, and when two keys are the same. */
module KeyPaths {
  import opened Segments

  predicate SlashFree(s: string) {
    FreeOf(s, '/')
  }

  ghost predicate AllSlashFree(path: seq<string>) {
    AllFreeOf(path, '/')
  }

  function Key(path: seq<string>): string {
    Join(path, '/')
  }

  lemma KeyStep(x: string, more: seq<string>)
    requires more != []
    ensures Key([x] + more) == x + "/" + Key(more)
  {
    assert ([x] + more)[1..] == more;
    assert Join([x] + more, '/') == x + Rest(more, '/');
    assert Rest(more, '/') == ['/'] + Join(more, '/');
    assert x + (['/'] + Join(more, '/')) == x + "/" + Join(more, '/');
  }

  lemma KeyOfOne(x: string)
    ensures Key([x]) == x
  {
    assert Rest([x][1..], '/') == "";
  }

  lemma KeyInjective(a: seq<string>, b: seq<string>)
    requires a != [] && b != [] && AllSlashFree(a) && AllSlashFree(b)
    requires Key(a) == Key(b)
    ensures a == b
  {
    JoinInjective(a, b, '/');
  }

  predicate HasPrefix(s: string, prefix: string) {
    |s| >= |prefix| && s[..|prefix|] == prefix
  }

  /** Prefix matching on keys with a closing slash is prefix matching on their segments. */
  lemma {:induction false} PrefixExactly(a: seq<string>, b: seq<string>)
    requires a != [] && b != [] && AllSlashFree(a) && AllSlashFree(b)
    ensures HasPrefix(Key(b), Key(a) + "/") <==> |a| < |b| && b[..|a|] == a
    decreases |a|
  {
    var p := Key(a) + "/";
    var tail := Rest(a[1..], '/') + "/";
    assert p == a[0] + tail;
    if HasPrefix(Key(b), p) {
      var w := Key(b)[|p|..];
      assert Key(b) == p + w == a[0] + (tail + w);
      HeadUnique(b[0], Rest(b[1..], '/'), a[0], tail + w, '/');
    }
    if a[0] == b[0] && |b| > 1 {
      PrefixOfRest(a[0], tail, Rest(b[1..], '/'));
      assert |a| <= |b| ==> b[..|a|][0] == b[0];
      if |a| > 1 {
        PrefixExactly(a[1..], b[1..]);
        PrefixOfRest("/", Key(a[1..]) + "/", Key(b[1..]));
        assert tail == "/" + (Key(a[1..]) + "/");
        assert |a| <= |b| ==> b[..|a|] == [b[0]] + b[1..][..|a| - 1];
        assert a == [a[0]] + a[1..];
      } else {
        assert Rest(b[1..], '/')[..1] == "/" == tail;
      }
    }
  }

  lemma PrefixOfRest(x: string, p: string, s: string)
    ensures HasPrefix(x + s, x + p) <==> HasPrefix(s, p)
  {
    if |s| >= |p| {
      assert (x + s)[..|x + p|] == x + s[..|p|];
      if x + s[..|p|] == x + p {
        assert (x + s[..|p|])[|x|..] == (x + p)[|x|..];
      }
    }
  }

  // ---- numbers in keys -------------------------------------------------------------

  function Digit(d: int): char
    requires 0 <= d < 10
  {
    "0123456789"[d]
  }

  function Digits(n: nat): (s: string)
    ensures s != "" && SlashFree(s) && s[0] != '-'
  {
    if n < 10 then [Digit(n)] else Digits(n / 10) + [Digit(n % 10)]
  }

  /** fmt's %d. */
  function Decimal(n: int): (s: string)
    ensures SlashFree(s)
  {
    if n < 0 then "-" + Digits(-n) else Digits(n)
  }

  lemma {:induction false} DigitsInjective(m: nat, n: nat)
    requires Digits(m) == Digits(n)
    ensures m == n
    decreases m + n
  {
    var s, t := Digits(m), Digits(n);
    assert s[|s| - 1] == Digit(m % 10) && t[|t| - 1] == Digit(n % 10);
    assert m % 10 == n % 10;
    if m >= 10 && n >= 10 {
      assert s[..|s| - 1] == Digits(m / 10) && t[..|t| - 1] == Digits(n / 10);
      DigitsInjective(m / 10, n / 10);
    }
  }

  lemma DecimalInjective(m: int, n: int)
    requires Decimal(m) == Decimal(n)
    ensures m == n
  {
    assert m < 0 <==> Decimal(m)[0] == '-';
    if m < 0 {
      assert Decimal(m)[1..] == Digits(-m) && Decimal(n)[1..] == Digits(-n);
      DigitsInjective(-m, -n);
    } else {
      DigitsInjective(m, n);
    }
  }
}
