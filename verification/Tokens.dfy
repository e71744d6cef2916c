// The pause-token counter: a 64-bit unsigned counter that wraps, skips zero and
// skips every value still held by an unresolved pause.
module Tokens {

  const WORD: nat := 0x1_0000_0000_0000_0000

  type Token = t: int | 0 <= t < WORD witness 0

  // The value of the counter after k increments.
  function Ahead(from: Token, k: nat): Token {
    (from + k) % WORD
  }

  predicate Usable(t: Token, held: set<Token>) {
    t != 0 && t !in held
  }

  // k increments reach a usable value and no fewer do.
  ghost predicate FirstUsableAt(from: Token, held: set<Token>, k: nat) {
    && 1 <= k <= WORD
    && Usable(Ahead(from, k), held)
    && forall j :: 1 <= j < k ==> !Usable(Ahead(from, j), held)
  }

  // The token the allocation loop settles on.
  ghost predicate IsNext(from: Token, held: set<Token>, token: Token) {
    exists k: nat :: FirstUsableAt(from, held, k) && Ahead(from, k) == token
  }

  ghost predicate SomeUsable(held: set<Token>) {
    exists t: Token :: Usable(t, held)
  }

  // Increments needed to bring the counter to t, counted round the cycle.
  function Distance(from: Token, t: Token): (k: nat)
    ensures 1 <= k <= WORD && Ahead(from, k) == t
  {
    if from < t then t - from else t + WORD - from
  }

  lemma AheadStep(from: Token, k: nat)
    ensures Ahead(from, k + 1) == (Ahead(from, k) + 1) % WORD
  {
  }

  lemma LeastUsable(from: Token, held: set<Token>, bound: nat) returns (k: nat)
    requires 1 <= bound <= WORD && Usable(Ahead(from, bound), held)
    ensures FirstUsableAt(from, held, k) && k <= bound
    decreases bound
  {
    if j :| 1 <= j < bound && Usable(Ahead(from, j), held) {
      k := LeastUsable(from, held, j);
    } else {
      k := bound;
    }
  }

  // The loop has a token to settle on exactly when some nonzero value is free,
  // and it settles on only one.
  lemma NextExistsIffSomeUsable(from: Token, held: set<Token>)
    ensures SomeUsable(held) <==> exists t: Token :: IsNext(from, held, t)
  {
    if SomeUsable(held) {
      var t: Token :| Usable(t, held);
      var k := LeastUsable(from, held, Distance(from, t));
      assert IsNext(from, held, Ahead(from, k));
    }
  }

  lemma NextUnique(from: Token, held: set<Token>, t: Token, u: Token)
    requires IsNext(from, held, t) && IsNext(from, held, u)
    ensures t == u
  {
    var j: nat :| FirstUsableAt(from, held, j) && Ahead(from, j) == t;
    var k: nat :| FirstUsableAt(from, held, k) && Ahead(from, k) == u;
    if j < k {
      assert false;
    } else if k < j {
      assert false;
    }
  }

  // The integers 1..n.
  function UpTo(n: nat): (s: set<int>)
    ensures forall t :: t in s <==> 1 <= t <= n
    ensures |s| == n
  {
    if n == 0 then {} else UpTo(n - 1) + {n}
  }

  // Fewer than 2^64 - 1 unresolved pauses always leave a token free.
  lemma FewPausesLeaveATokenFree(held: set<Token>)
    requires |held| < WORD - 1
    ensures SomeUsable(held)
  {
    if !SomeUsable(held) {
      var all := UpTo(WORD - 1);
      forall t | t in all ensures t in held {
        var u: Token := t;
        assert !Usable(u, held);
      }
      SubsetSize<int>(all, held);
      assert false;
    }
  }

  lemma {:induction false} SubsetSize<T>(a: set<T>, b: set<T>)
    requires a <= b
    ensures |a| <= |b|
  {
    if a != {} {
      var x :| x in a;
      SubsetSize(a - {x}, b - {x});
    }
  }
}
