/** The two anchored regular expressions of the forms: `cepRegex`
    (`/^\d{5}-?\d{3}$/`, a CEP postal code) and `emailRegex`
    (`/^[^\s@]+@[^\s@]+\.[^\s@]+$/`, the group's contact e-mail).

    A pattern is a sequence of atoms, each a character class with a
    quantifier; `Matches` is the backtracking whole-string match that
    `RegExp.prototype.test` performs on a pattern anchored by `^` and `$`
    (without the `m` flag `$` matches only at the very end). */
module Patterns {
  import opened Text

  /** The character classes the two patterns use. */
  datatype CharClass =
    | Digit            // `\d`
    | Literal(c: char) // a character standing for itself, `-`, `@`, `\.`
    | NotSpaceNorAt    // `[^\s@]`

  /** No quantifier, `?` and `+`. */
  datatype Quantifier = Once | Optional | OneOrMore

  datatype Atom = Atom(cls: CharClass, q: Quantifier)

  predicate InClass(cls: CharClass, c: char) {
    match cls
    case Digit => IsDigit(c)
    case Literal(l) => c == l
    case NotSpaceNorAt => !IsSpace(c) && c != '@'
  }

  /** Every character of `s` belongs to `cls`. */
  predicate AllIn(cls: CharClass, s: string) {
    forall i :: 0 <= i < |s| ==> InClass(cls, s[i])
  }

  /** The fewest characters a match of `p` can have: one for each atom that
      is not optional. */
  function MinLength(p: seq<Atom>): nat {
    if p == [] then 0 else (if p[0].q == Optional then 0 else 1) + MinLength(p[1..])
  }

  /** The fewest characters of a concatenation add up. */
  lemma {:induction false} MinLengthAppend(a: seq<Atom>, b: seq<Atom>)
    ensures MinLength(a + b) == MinLength(a) + MinLength(b)
  {
    if a != [] {
      assert (a + b)[0] == a[0];
      assert (a + b)[1..] == a[1..] + b;
      MinLengthAppend(a[1..], b);
    } else {
      assert a + b == b;
    }
  }

  /** `p` has no `+`, so each atom takes at most one character. */
  predicate Bounded(p: seq<Atom>) {
    forall i :: 0 <= i < |p| ==> p[i].q != OneOrMore
  }

  /** `s` as a whole matches `p`: an optional atom is first skipped and then
      tried once, a `+` atom takes one character and then either stops or
      goes on. */
  predicate Matches(p: seq<Atom>, s: string): (ok: bool)
    ensures ok ==> MinLength(p) <= |s|
    ensures ok && Bounded(p) ==> |s| <= |p|
    decreases |s|, |p|
  {
    if p == [] then s == []
    else
      var a := p[0];
      match a.q
      case Once =>
        s != [] && InClass(a.cls, s[0]) && Matches(p[1..], s[1..])
      case Optional =>
        || Matches(p[1..], s)
        || (s != [] && InClass(a.cls, s[0]) && Matches(p[1..], s[1..]))
      case OneOrMore =>
        && s != []
        && InClass(a.cls, s[0])
        && (Matches(p[1..], s[1..]) || Matches(p, s[1..]))
  }

  /** `x{n}`: the atom `x` written `n` times. */
  function Repeat(a: Atom, n: nat): (p: seq<Atom>)
    ensures |p| == n
    ensures forall i :: 0 <= i < n ==> p[i] == a
  {
    seq(n, _ => a)
  }

  /** `x{n}` needs at least `n` characters. */
  lemma {:induction false} RepeatMinLength(cls: CharClass, n: nat)
    ensures MinLength(Repeat(Atom(cls, Once), n)) == n
  {
    if n != 0 {
      assert Repeat(Atom(cls, Once), n)[1..] == Repeat(Atom(cls, Once), n - 1);
      RepeatMinLength(cls, n - 1);
    }
  }

  /** `/^\d{5}-?\d{3}$/`: nine atoms, one optional and none repeated, so a
      CEP it accepts has eight or nine characters. */
  function CepPattern(): (p: seq<Atom>)
    ensures |p| == 9 && Bounded(p) && MinLength(p) == 8
  {
    var five, three := Repeat(Atom(Digit, Once), 5), Repeat(Atom(Digit, Once), 3);
    RepeatMinLength(Digit, 5);
    RepeatMinLength(Digit, 3);
    MinLengthAppend(five, [Atom(Literal('-'), Optional)]);
    MinLengthAppend(five + [Atom(Literal('-'), Optional)], three);
    five + [Atom(Literal('-'), Optional)] + three
  }

  /** `/^[^\s@]+@[^\s@]+\.[^\s@]+$/`: three repeated runs around `@` and
      `.`, so an accepted address has at least five characters and no upper
      bound. */
  function EmailPattern(): (p: seq<Atom>)
    ensures MinLength(p) == 5 && !Bounded(p)
  {
    [ Atom(NotSpaceNorAt, OneOrMore), Atom(Literal('@'), Once)
    , Atom(NotSpaceNorAt, OneOrMore), Atom(Literal('.'), Once)
    , Atom(NotSpaceNorAt, OneOrMore) ]
  }

  /** `n` single atoms of one class match exactly the first `n` characters
      when all of them are in that class. */
  lemma {:induction false} RunOfOnce(cls: CharClass, n: nat, rest: seq<Atom>, s: string)
    ensures Matches(Repeat(Atom(cls, Once), n) + rest, s)
        <==> |s| >= n && AllIn(cls, s[..n]) && Matches(rest, s[n..])
  {
    var p := Repeat(Atom(cls, Once), n) + rest;
    if n == 0 {
      assert p == rest;
    } else {
      assert p[0] == Atom(cls, Once);
      assert p[1..] == Repeat(Atom(cls, Once), n - 1) + rest;
      if s != [] {
        RunOfOnce(cls, n - 1, rest, s[1..]);
        if |s| >= n {
          assert s[1..][..n - 1] == s[1..n];
          assert s[1..][n - 1..] == s[n..];
          assert AllIn(cls, s[..n]) <==> InClass(cls, s[0]) && AllIn(cls, s[1..n]) by {
            assert forall i :: 1 <= i < n ==> s[..n][i] == s[1..n][i - 1];
          }
        }
      }
    }
  }

  /** `x+` followed by `rest` matches when some non-empty prefix lies in the
      class of `x` and `rest` matches what follows it. */
  predicate PlusSplit(cls: CharClass, rest: seq<Atom>, s: string, i: int) {
    1 <= i <= |s| && AllIn(cls, s[..i]) && Matches(rest, s[i..])
  }

  lemma {:induction false} RunOfOneOrMore(cls: CharClass, rest: seq<Atom>, s: string)
    ensures Matches([Atom(cls, OneOrMore)] + rest, s) <==> exists i :: PlusSplit(cls, rest, s, i)
    decreases |s|
  {
    var p := [Atom(cls, OneOrMore)] + rest;
    assert p[0] == Atom(cls, OneOrMore);
    assert p[1..] == rest;
    if s == [] {
      assert forall i :: !PlusSplit(cls, rest, s, i);
    } else {
      RunOfOneOrMore(cls, rest, s[1..]);
      if Matches(p, s) {
        if Matches(rest, s[1..]) {
          assert PlusSplit(cls, rest, s, 1);
        } else {
          var j :| PlusSplit(cls, rest, s[1..], j);
          assert s[1..][..j] == s[1..j + 1];
          assert s[1..][j..] == s[j + 1..];
          assert PlusSplit(cls, rest, s, j + 1);
        }
      }
      if exists i :: PlusSplit(cls, rest, s, i) {
        var i :| PlusSplit(cls, rest, s, i);
        assert InClass(cls, s[0]) by {
          assert s[..i][0] == s[0];
        }
        if i > 1 {
          assert s[1..][..i - 1] == s[1..i];
          assert s[1..][i - 1..] == s[i..];
          forall k | 1 <= k < i
            ensures InClass(cls, s[k])
          {
            assert s[k] == s[..i][k];
          }
          assert AllIn(cls, s[1..][..i - 1]);
          assert PlusSplit(cls, rest, s[1..], i - 1);
        }
      }
    }
  }

  /** `cepRegex.test(s)`: five digits, an optional dash, three digits; so
      eight digits, or nine characters with the dash in the sixth place. */
  function IsCep(s: string): (ok: bool)
    ensures ok <==>
      || (|s| == 8 && AllDigits(s))
      || (|s| == 9 && AllDigits(s[..5]) && s[5] == '-' && AllDigits(s[6..]))
    ensures ok ==> |s| == 8 || |s| == 9
  {
    CepShape(s);
    Matches(CepPattern(), s)
  }

  lemma CepShape(s: string)
    ensures Matches(CepPattern(), s) <==>
      || (|s| == 8 && AllDigits(s))
      || (|s| == 9 && AllDigits(s[..5]) && s[5] == '-' && AllDigits(s[6..]))
  {
    var five, three := Repeat(Atom(Digit, Once), 5), Repeat(Atom(Digit, Once), 3);
    var dash := Atom(Literal('-'), Optional);
    assert CepPattern() == five + ([dash] + three);
    RunOfOnce(Digit, 5, [dash] + three, s);
    assert AllIn(Digit, s) <==> AllDigits(s);
    if |s| >= 5 {
      var u := s[5..];
      assert ([dash] + three)[0] == dash;
      assert ([dash] + three)[1..] == three;
      RunOfOnce(Digit, 3, [], u);
      assert three + [] == three;
      assert AllIn(Digit, s[..5]) <==> AllDigits(s[..5]);
      if u != [] {
        RunOfOnce(Digit, 3, [], u[1..]);
        assert u[1..] == s[6..];
      }
      if |s| == 8 {
        assert u[..3] == u;
        assert AllDigits(s) <==> AllDigits(s[..5]) && AllDigits(u) by {
          assert forall i :: 5 <= i < 8 ==> s[i] == u[i - 5];
        }
      }
      if |s| == 9 {
        assert u[1..][..3] == s[6..];
        assert AllIn(Digit, s[6..]) <==> AllDigits(s[6..]);
        assert !AllDigits(s) || s[5] != '-';
      }
    }
  }

  /** The reading of `emailRegex` with its two literal characters placed:
      `s[at]` is the `@`, `s[dot]` the `.`, and the three runs around them
      are non-empty and free of white space and `@`. */
  predicate EmailSplit(s: string, at: int, dot: int) {
    && 0 < at && at + 1 < dot && dot + 1 < |s|
    && s[at] == '@' && s[dot] == '.'
    && AllIn(NotSpaceNorAt, s[..at])
    && AllIn(NotSpaceNorAt, s[at + 1..dot])
    && AllIn(NotSpaceNorAt, s[dot + 1..])
  }

  /** After the `@`: a non-empty run, the `.` at offset `j`, a non-empty run. */
  predicate DomainSplit(v: string, j: int) {
    && 1 <= j && j + 1 < |v|
    && v[j] == '.'
    && AllIn(NotSpaceNorAt, v[..j])
    && AllIn(NotSpaceNorAt, v[j + 1..])
  }

  /** `[^\s@]+$`: a non-empty run of the class and nothing after it. */
  lemma LastRun(x: string)
    ensures Matches([Atom(NotSpaceNorAt, OneOrMore)], x) <==> |x| >= 1 && AllIn(NotSpaceNorAt, x)
  {
  }

  /** `[^\s@]+\.[^\s@]+$` matches exactly the splits of `DomainSplit`. */
  lemma DomainRuns(v: string)
    ensures Matches(EmailPattern()[2..], v) <==> exists j :: DomainSplit(v, j)
  {
    var P, DOT := Atom(NotSpaceNorAt, OneOrMore), Atom(Literal('.'), Once);
    var E3 := [DOT, P];
    assert EmailPattern()[2..] == [P] + E3;
    RunOfOneOrMore(NotSpaceNorAt, E3, v);
    forall j
      ensures PlusSplit(NotSpaceNorAt, E3, v, j) <==> DomainSplit(v, j)
    {
      if 1 <= j <= |v| {
        var w := v[j..];
        assert E3[0] == DOT && E3[1..] == [P];
        if w != [] {
          LastRun(w[1..]);
          assert w[1..] == v[j + 1..];
        }
      }
    }
    if Matches(EmailPattern()[2..], v) {
      var j :| PlusSplit(NotSpaceNorAt, E3, v, j);
      assert DomainSplit(v, j);
    }
    if exists j :: DomainSplit(v, j) {
      var j :| DomainSplit(v, j);
      assert PlusSplit(NotSpaceNorAt, E3, v, j);
    }
  }

  /** A match of the whole pattern gives such a split. */
  lemma EmailMatchSplits(s: string)
    requires Matches(EmailPattern(), s)
    ensures exists at, dot :: EmailSplit(s, at, dot)
  {
    var P, AT := Atom(NotSpaceNorAt, OneOrMore), Atom(Literal('@'), Once);
    var E1 := EmailPattern()[1..];
    assert EmailPattern() == [P] + E1;
    RunOfOneOrMore(NotSpaceNorAt, E1, s);
    var at :| PlusSplit(NotSpaceNorAt, E1, s, at);
    var u := s[at..];
    assert E1[0] == AT && E1[1..] == EmailPattern()[2..];
    assert u[1..] == s[at + 1..];
    DomainRuns(s[at + 1..]);
    var j :| DomainSplit(s[at + 1..], j);
    var dot := at + 1 + j;
    assert s[at + 1..][..j] == s[at + 1..dot];
    assert s[at + 1..][j + 1..] == s[dot + 1..];
    assert EmailSplit(s, at, dot);
  }

  /** Such a split gives a match of the whole pattern. */
  lemma EmailSplitMatches(s: string, at: int, dot: int)
    requires EmailSplit(s, at, dot)
    ensures Matches(EmailPattern(), s)
  {
    var P, AT := Atom(NotSpaceNorAt, OneOrMore), Atom(Literal('@'), Once);
    var E1 := EmailPattern()[1..];
    assert EmailPattern() == [P] + E1;
    var j := dot - at - 1;
    assert s[at + 1..][..j] == s[at + 1..dot];
    assert s[at + 1..][j + 1..] == s[dot + 1..];
    assert DomainSplit(s[at + 1..], j);
    DomainRuns(s[at + 1..]);
    var u := s[at..];
    assert E1[0] == AT && E1[1..] == EmailPattern()[2..];
    assert u[1..] == s[at + 1..];
    assert PlusSplit(NotSpaceNorAt, E1, s, at);
    RunOfOneOrMore(NotSpaceNorAt, E1, s);
  }

  /** The e-mail pattern sets no upper bound on length: a local part of any
      length `n` followed by `@b.c` is accepted. */
  lemma EmailLengthUnbounded(n: nat)
    requires n >= 1
    ensures Matches(EmailPattern(), seq(n, _ => 'a') + "@b.c")
  {
    var user := seq(n, _ => 'a');
    var s := user + "@b.c";
    assert s[..n] == user;
    assert s[n] == '@' && s[n + 2] == '.';
    assert s[n + 1..n + 2] == "b" && s[n + 3..] == "c";
    assert !IsSpace('a') && !IsSpace('b') && !IsSpace('c');
    assert EmailSplit(s, n, n + 2);
    EmailSplitMatches(s, n, n + 2);
  }

  /** The whole pattern matches exactly the splits of `EmailSplit`. */
  lemma EmailRuns(s: string)
    ensures Matches(EmailPattern(), s) <==> exists at, dot :: EmailSplit(s, at, dot)
  {
    if Matches(EmailPattern(), s) {
      EmailMatchSplits(s);
    }
    if exists at, dot :: EmailSplit(s, at, dot) {
      var at, dot :| EmailSplit(s, at, dot);
      EmailSplitMatches(s, at, dot);
    }
  }

  /** `emailRegex.test(s)`: a non-empty run, `@`, a non-empty run, `.`, a
      non-empty run, none of the runs holding white space or `@`. */
  function IsEmail(s: string): (ok: bool)
    ensures ok <==> exists at, dot :: EmailSplit(s, at, dot)
  {
    EmailRuns(s);
    Matches(EmailPattern(), s)
  }

  /** The `@` at `at` is the only one in `s`. */
  predicate OnlyAt(s: string, at: int) {
    forall i :: 0 <= i < |s| && i != at ==> s[i] != '@'
  }

  /** Some `.` lies after `at + 1` and before the last character. */
  predicate DotInsideDomain(s: string, at: int)
    requires 0 <= at
  {
    exists dot :: at + 1 < dot < |s| - 1 && s[dot] == '.'
  }

  /** Because the runs may themselves hold dots, the pattern says no more
      than this: no white space anywhere, exactly one `@` and not in front,
      and a `.` after the `@` that is neither next to it nor last. */
  lemma EmailInPlainWords(s: string)
    ensures IsEmail(s) <==>
      && (forall i :: 0 <= i < |s| ==> !IsSpace(s[i]))
      && exists at :: 0 < at < |s| && s[at] == '@' && OnlyAt(s, at) && DotInsideDomain(s, at)
  {
    assert !IsSpace('@') && !IsSpace('.');
    if IsEmail(s) {
      var at, dot :| EmailSplit(s, at, dot);
      forall i | 0 <= i < |s|
        ensures !IsSpace(s[i])
        ensures i != at ==> s[i] != '@'
      {
        if i < at {
          assert s[i] == s[..at][i];
        } else if at < i < dot {
          assert s[i] == s[at + 1..dot][i - at - 1];
        } else if dot < i {
          assert s[i] == s[dot + 1..][i - dot - 1];
        }
      }
      assert OnlyAt(s, at);
      assert DotInsideDomain(s, at);
    }
    if && (forall i :: 0 <= i < |s| ==> !IsSpace(s[i]))
       && exists at :: 0 < at < |s| && s[at] == '@' && OnlyAt(s, at) && DotInsideDomain(s, at)
    {
      var at :| 0 < at < |s| && s[at] == '@' && OnlyAt(s, at) && DotInsideDomain(s, at);
      var dot :| at + 1 < dot < |s| - 1 && s[dot] == '.';
      var user, host, tail := s[..at], s[at + 1..dot], s[dot + 1..];
      forall k | 0 <= k < |user|
        ensures InClass(NotSpaceNorAt, user[k])
      {
        assert user[k] == s[k];
      }
      forall k | 0 <= k < |host|
        ensures InClass(NotSpaceNorAt, host[k])
      {
        assert host[k] == s[at + 1 + k];
      }
      forall k | 0 <= k < |tail|
        ensures InClass(NotSpaceNorAt, tail[k])
      {
        assert tail[k] == s[dot + 1 + k];
      }
      assert EmailSplit(s, at, dot);
    }
  }

  /** Both written forms of a CEP match; a dash in the wrong place does not. */
  lemma CepExamples()
    ensures IsCep("01310-100")
    ensures IsCep("01310100")
    ensures !IsCep("0131-0100")
    ensures !IsCep("01310-10")
  {
    assert "01310-100"[..5] == "01310" && "01310-100"[6..] == "100";
    assert !IsDigit("01310-10"[5]);
  }

  /** A minimal address matches; one without a dot after the `@`, or with a
      space, does not. */
  lemma EmailExamples()
    ensures IsEmail("a@b.c")
    ensures !IsEmail("a@bc")
    ensures !IsEmail("a b@c.d")
  {
  }
}
