/** The news carousel: a read position into a fixed list of news entries that
    `nextNews` and `prevNews` move forward and backward, wrapping around. */
module Carousel {

  datatype NewsItem = NewsItem(title: string, date: string, description: string, image: string)

  const AiLabOpening := NewsItem("New AI Research Lab Opening", "March 15, 2024",
    "State-of-the-art artificial intelligence research facility opening next month, featuring cutting-edge equipment and collaboration spaces.",
    "https://images.unsplash.com/photo-1485827404703-89b55fcc595e?ixlib=rb-1.2.1&auto=format&fit=crop&w=800&q=80")
  const HackathonWin := NewsItem("Student Wins Global Hackathon", "March 10, 2024",
    "Our student team secured first place in the International Coding Championship, showcasing innovative solutions for sustainable technology.",
    "https://images.unsplash.com/photo-1517245386807-bb43f82c33c4?ixlib=rb-1.2.1&auto=format&fit=crop&w=800&q=80")
  const IndustryPartnership := NewsItem("Industry Partnership Announcement", "March 5, 2024",
    "New collaboration with leading tech companies offering exclusive internship opportunities and mentorship programs for our students.",
    "https://images.unsplash.com/photo-1552664730-d307ca884978?ixlib=rb-1.2.1&auto=format&fit=crop&w=800&q=80")

  /** The three hard-coded news entries, in display order. */
  function NewsItems(): (items: seq<NewsItem>)
    ensures |items| == 3
  {
    [AiLabOpening, HackathonWin, IndustryPartnership]
  }

  /** JavaScript's `a % n` for a positive divisor: the remainder truncates
      toward zero, so it takes the sign of `a` (Dafny's own `%` never goes
      negative). */
  function JsRem(a: int, n: int): (r: int)
    requires n > 0
    ensures -n < r < n
    ensures a >= 0 ==> r >= 0
    ensures a <= 0 ==> r <= 0
    ensures r % n == a % n
  {
    if a >= 0 then a % n
    else
      var m := (-a) % n;
      var q := (-a) / n;
      assert -a == q * n + m;
      if m == 0 then
        ModUnique(a, n, -q, 0);
        -m
      else
        ModUnique(a, n, -q - 1, n - m);
        ModUnique(-m, n, -1, n - m);
        -m
  }

  /** `(prev + 1) % newsItems.length`: one step forward, wrapping from the last
      entry to the first. */
  function Next(i: int, n: int): (r: int)
    requires n > 0
    ensures 0 <= i < n ==> 0 <= r < n
    ensures 0 <= i < n ==> r == if i == n - 1 then 0 else i + 1
  {
    JsRem(i + 1, n)
  }

  /** `(prev - 1 + newsItems.length) % newsItems.length`: one step back,
      wrapping from the first entry to the last. */
  function Prev(i: int, n: int): (r: int)
    requires n > 0
    ensures 0 <= i < n ==> 0 <= r < n
    ensures 0 <= i < n ==> r == if i == 0 then n - 1 else i - 1
  {
    JsRem(i - 1 + n, n)
  }

  /** Going back undoes going forward, and going forward undoes going back. */
  lemma PrevUndoesNext(i: int, n: int)
    requires 0 <= i < n
    ensures Prev(Next(i, n), n) == i
    ensures Next(Prev(i, n), n) == i
  {
  }

  /** `k` presses of the forward button. */
  function NextTimes(i: int, k: nat, n: int): int
    requires n > 0
  {
    if k == 0 then i else Next(NextTimes(i, k - 1, n), n)
  }

  /** `k` presses of the back button. */
  function PrevTimes(i: int, k: nat, n: int): int
    requires n > 0
  {
    if k == 0 then i else Prev(PrevTimes(i, k - 1, n), n)
  }

  /** Euclidean remainders are unique: any decomposition `a == q * n + r` with
      `0 <= r < n` gives `a % n == r`. */
  lemma ModUnique(a: int, n: int, q: int, r: int)
    requires n > 0 && 0 <= r < n && a == q * n + r
    ensures a % n == r
  {
    var q0, r0 := a / n, a % n;
    assert a == q0 * n + r0;
    if q0 > q {
      assert (q0 - q) * n == r - r0;
      MulAtLeast(q0 - q, n);
    } else if q0 < q {
      assert (q - q0) * n == r0 - r;
      MulAtLeast(q - q0, n);
    }
  }

  lemma MulAtLeast(x: int, n: int)
    requires x >= 1 && n > 0
    ensures x * n >= n
  {
    assert x * n == (x - 1) * n + n;
    assert (x - 1) * n >= 0;
  }

  /** Stepping forward from a position `a % n` lands on `(a + 1) % n`. */
  lemma ModSucc(a: int, n: int)
    requires n > 0
    ensures (a + 1) % n == if a % n == n - 1 then 0 else a % n + 1
  {
    var q := a / n;
    assert a == q * n + a % n;
    if a % n == n - 1 {
      assert a + 1 == (q + 1) * n;
      ModUnique(a + 1, n, q + 1, 0);
    } else {
      ModUnique(a + 1, n, q, a % n + 1);
    }
  }

  /** Stepping back from a position `a % n` lands on `(a - 1) % n`. */
  lemma ModPred(a: int, n: int)
    requires n > 0
    ensures (a - 1) % n == if a % n == 0 then n - 1 else a % n - 1
  {
    var q := a / n;
    assert a == q * n + a % n;
    if a % n == 0 {
      assert a - 1 == (q - 1) * n + (n - 1);
      ModUnique(a - 1, n, q - 1, n - 1);
    } else {
      ModUnique(a - 1, n, q, a % n - 1);
    }
  }

  /** `k` forward presses from `i` show entry `(i + k) mod n`. */
  lemma {:induction false} NextTimesClosedForm(i: int, k: nat, n: int)
    requires 0 <= i < n
    ensures NextTimes(i, k, n) == (i + k) % n
  {
    if k > 0 {
      NextTimesClosedForm(i, k - 1, n);
      var j := (i + k - 1) % n;
      assert NextTimes(i, k, n) == Next(j, n);
      ModSucc(i + k - 1, n);
      assert i + k - 1 + 1 == i + k;
    }
  }

  /** `k` back presses from `i` show entry `(i - k) mod n`, never negative. */
  lemma {:induction false} PrevTimesClosedForm(i: int, k: nat, n: int)
    requires 0 <= i < n
    ensures PrevTimes(i, k, n) == (i - k) % n
  {
    if k > 0 {
      PrevTimesClosedForm(i, k - 1, n);
      var j := (i - k + 1) % n;
      assert PrevTimes(i, k, n) == Prev(j, n);
      ModPred(i - k + 1, n);
      assert i - k + 1 - 1 == i - k;
    }
  }

  /** A full round of `n` forward presses comes back to the same entry. */
  lemma FullCycle(i: int, n: int)
    requires 0 <= i < n
    ensures NextTimes(i, n, n) == i
  {
    NextTimesClosedForm(i, n, n);
    ModUnique(i + n, n, 1, i);
  }

  /** A button press on the carousel. */
  datatype Press = Forward | Back

  /** The position after a run of presses starting from `i`. */
  function Run(i: int, presses: seq<Press>, n: int): int
    requires n > 0
    decreases |presses|
  {
    if presses == [] then i
    else
      var j := if presses[0] == Forward then Next(i, n) else Prev(i, n);
      Run(j, presses[1..], n)
  }

  /** Whatever the buttons pressed, the position stays a valid index, so every
      read of the current entry is in bounds. */
  lemma {:induction false} RunInBounds(i: int, presses: seq<Press>, n: int)
    requires 0 <= i < n
    ensures 0 <= Run(i, presses, n) < n
    decreases |presses|
  {
    if presses != [] {
      var j := if presses[0] == Forward then Next(i, n) else Prev(i, n);
      RunInBounds(j, presses[1..], n);
    }
  }

  /** The position after any run of presses is the start moved by the number
      of forward presses minus the number of back presses, modulo `n`. */
  lemma {:induction false} RunNetSteps(i: int, presses: seq<Press>, n: int)
    requires 0 <= i < n
    ensures Run(i, presses, n) == (i + Count(presses, Forward) - Count(presses, Back)) % n
    decreases |presses|
  {
    if presses != [] {
      var rest := presses[1..];
      var d := Count(rest, Forward) - Count(rest, Back);
      var step := if presses[0] == Forward then 1 else -1;
      var j := if presses[0] == Forward then Next(i, n) else Prev(i, n);
      RunNetSteps(j, rest, n);
      assert Count(presses, Forward) - Count(presses, Back) == step + d;
      if presses[0] == Forward {
        ModSucc(i, n);
        ModUnique(i, n, 0, i);
      } else {
        ModPred(i, n);
        ModUnique(i, n, 0, i);
      }
      assert j == (i + step) % n;
      ModShift(i + step, d, n);
    }
  }

  /** How often `p` occurs in `presses`. */
  function Count(presses: seq<Press>, p: Press): nat
  {
    if presses == [] then 0
    else (if presses[0] == p then 1 else 0) + Count(presses[1..], p)
  }

  /** Reducing modulo `n` before adding `d` does not change the result. */
  lemma ModShift(a: int, d: int, n: int)
    requires n > 0
    ensures (a % n + d) % n == (a + d) % n
  {
    var q, q2 := a / n, (a + d) / n;
    assert a == q * n + a % n;
    assert a + d == q2 * n + (a + d) % n;
    assert (q2 - q) * n == q2 * n - q * n;
    ModUnique(a % n + d, n, q2 - q, (a + d) % n);
  }
}
