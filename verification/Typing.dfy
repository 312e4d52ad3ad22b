/**
 * Typing into the live editor: splitting the text so that the driver loses no
 * key, and the verified retry loop around it.
 */
module Typing {
  import opened Basics

  // ----------------------------------------------------- distinct chunks ---

  /** Length of the longest prefix without a repeat, given that `held` is down already. */
  function FreshRun(held: set<char>, text: string): (n: nat)
    ensures n <= |text|
    decreases |text|
  {
    if text == "" || text[0] in held then 0 else 1 + FreshRun(held + {text[0]}, text[1..])
  }

  /** The split `distinctKeyChunks` makes: each chunk the longest run it can be. */
  function Greedy(text: string): (chunks: seq<string>)
    decreases |text|
  {
    if text == "" then []
    else
      var n := FreshRun({}, text);
      [text[..n]] + Greedy(text[n..])
  }

  function Chars(s: string): (c: set<char>) {
    set x <- s
  }

  lemma {:induction false} FreshRunIs(held: set<char>, text: string, n: nat)
    requires n <= |text|
    ensures n <= FreshRun(held, text) <==> Distinct(text[..n]) && Chars(text[..n]) !! held
    decreases |text|
  {
    if n > 0 {
      var c, tail := text[0], text[1..];
      FreshRunIs(held + {c}, tail, n - 1);
      assert text[..n] == [c] + tail[..n - 1];
      NewKey(held, c, tail[..n - 1]);
    }
  }

  lemma NewKey(held: set<char>, c: char, run: string)
    ensures Distinct([c] + run) && Chars([c] + run) !! held
       <==> c !in held && Distinct(run) && Chars(run) !! held + {c}
  {
    var all := [c] + run;
    assert Chars(all) == {c} + Chars(run);
    assert all[0] == c && forall i :: 0 <= i < |run| ==> all[i + 1] == run[i];
    assert forall x <- run :: x in Chars(run);
  }

  /** A chunk that cannot take the next character is a greedy chunk. */
  lemma GreedyChunk(chunk: string, rest: string)
    requires chunk != "" && Distinct(chunk)
    requires rest == "" || rest[0] in chunk
    ensures Greedy(chunk + rest) == [chunk] + Greedy(rest)
  {
    var s := chunk + rest;
    assert s[..|chunk|] == chunk && s[|chunk|..] == rest;
    FreshRunIs({}, s, |chunk|);
    if rest != "" {
      FreshRunIs({}, s, |chunk| + 1);
      var k :| 0 <= k < |chunk| && chunk[k] == rest[0];
      assert s[..|chunk| + 1][k] == s[..|chunk| + 1][|chunk|];
    }
  }

  /** One turn of the loop: a chunk that holds the character is flushed before the character is taken. */
  lemma Turn(chunks: seq<string>, chunk: string, text: string, i: nat, after: seq<string>, next: string)
    requires i < |text| && Distinct(chunk)
    requires if text[i] in chunk then after == chunks + [chunk] && next == [text[i]]
             else after == chunks && next == chunk + [text[i]]
    ensures chunks + Greedy(chunk + text[i..]) == after + Greedy(next + text[i + 1..])
    ensures Distinct(next)
  {
    Tail(text, i);
    if text[i] in chunk {
      GreedyChunk(chunk, text[i..]);
      Assoc(chunks, [chunk], Greedy(text[i..]));
    } else {
      Assoc(chunk, [text[i]], text[i + 1..]);
    }
  }

  lemma LastFlush(chunks: seq<string>, chunk: string, rest: string)
    requires Distinct(chunk) && rest == ""
    ensures chunks + Greedy(chunk + rest) == if chunk != "" then chunks + [chunk] else chunks
  {
    assert Greedy("") == [];
    if chunk != "" {
      GreedyChunk(chunk, rest);
      assert [chunk] + [] == [chunk];
    } else {
      assert chunk + rest == "" && chunks + [] == chunks;
    }
  }

  /** `distinctKeyChunks(text)`. */
  method DistinctKeyChunks(text: string) returns (chunks: seq<string>)
    ensures chunks == Greedy(text)
  {
    chunks := [];
    var chunk := "";
    ghost var all := Greedy(text);
    assert "" + text[0..] == text && [] + all == all;
    for i := 0 to |text|
      invariant Distinct(chunk)
      invariant all == chunks + Greedy(chunk + text[i..])
    {
      var ch := text[i];
      ghost var before, held := chunks, chunk;
      if ch in chunk {
        chunks := chunks + [chunk];
        chunk := "";
      }
      chunk := chunk + [ch];
      assert "" + [ch] == [ch];
      Turn(before, held, text, i, chunks, chunk);
    }
    LastFlush(chunks, chunk, text[|text|..]);
    if chunk != "" {
      chunks := chunks + [chunk];
    }
  }

  // --------------------------------------------------------------- driver ---

  /**
   * What the driver delivers of one `keys` call: it presses every key before it
   * releases any, and a key pressed while held is lost.
   */
  function Delivered(held: set<char>, keys: string): (got: string)
    decreases |keys|
  {
    if keys == "" then ""
    else (if keys[0] in held then "" else [keys[0]]) + Delivered(held + {keys[0]}, keys[1..])
  }

  /** What a sequence of calls delivers; the keys are all up between two calls. */
  function Sent(calls: seq<string>): (got: string) {
    if calls == [] then "" else Delivered({}, calls[0]) + Sent(calls[1..])
  }

  lemma {:induction false} DeliveredLength(held: set<char>, keys: string)
    ensures |Delivered(held, keys)| <= |keys|
    ensures |Delivered(held, keys)| == |keys| <==> Distinct(keys) && Chars(keys) !! held
    ensures |Delivered(held, keys)| == |keys| ==> Delivered(held, keys) == keys
    decreases |keys|
  {
    if keys != "" {
      var c, tail := keys[0], keys[1..];
      DeliveredLength(held + {c}, tail);
      FreshRunIs(held, keys, |keys|);
      FreshRunIs(held + {c}, tail, |tail|);
      assert keys[..|keys|] == keys && tail[..|tail|] == tail;
    }
  }

  /** One call delivers its keys exactly when no character repeats. */
  lemma OneCallIsExact(keys: string)
    ensures Delivered({}, keys) == keys <==> Distinct(keys)
  {
    DeliveredLength({}, keys);
  }

  /** Of one call exactly the keys pressed again are lost: one more key arrives unless it is down already. */
  lemma {:induction false} DeliveredSnoc(held: set<char>, keys: string, c: char)
    ensures Delivered(held, keys + [c]) == Delivered(held, keys) + if c in held || c in keys then "" else [c]
    decreases |keys|
  {
    var all := keys + [c];
    if keys == "" {
      assert all[0] == c && all[1..] == "" && c !in keys;
      assert Delivered(held + {c}, "") == "";
    } else {
      assert all[0] == keys[0] && all[1..] == keys[1..] + [c];
      DeliveredSnoc(held + {keys[0]}, keys[1..], c);
      assert keys == [keys[0]] + keys[1..];
    }
  }

  /** A driver that loses repeats delivers none. */
  lemma {:induction false} DeliveredDistinct(held: set<char>, keys: string)
    ensures Distinct(Delivered(held, keys)) && Chars(Delivered(held, keys)) !! held
    decreases |keys|
  {
    if keys != "" {
      DeliveredDistinct(held + {keys[0]}, keys[1..]);
      var got := Delivered(held + {keys[0]}, keys[1..]);
      assert forall x <- got :: x in Chars(got);
    }
  }

  /** The calls as they arrive. */
  function Arriving(calls: seq<string>): (got: seq<string>) {
    seq(|calls|, i requires 0 <= i < |calls| => Delivered({}, calls[i]))
  }

  lemma {:induction false} SentIsArriving(calls: seq<string>)
    ensures Sent(calls) == Concat(Arriving(calls))
  {
    if calls != [] {
      SentIsArriving(calls[1..]);
      assert Arriving(calls)[1..] == Arriving(calls[1..]);
    }
  }

  lemma {:induction false} GreedyIsExact(text: string)
    ensures Concat(Greedy(text)) == text && Sent(Greedy(text)) == text
    ensures forall c <- Greedy(text) :: c != "" && Distinct(c)
    decreases |text|
  {
    if text != "" {
      var n := FreshRun({}, text);
      FreshRunIs({}, text, n);
      FreshRunIs({}, text, 1);
      GreedyIsExact(text[n..]);
      OneCallIsExact(text[..n]);
      assert text == text[..n] + text[n..];
    }
  }

  /** Each chunk is as long as it can be: the next begins with a key it holds. */
  lemma {:induction false} ChunksAreLongest(text: string, i: nat)
    requires i + 1 < |Greedy(text)|
    ensures Greedy(text)[i + 1] != "" && Greedy(text)[i + 1][0] in Greedy(text)[i]
    decreases i
  {
    var n := FreshRun({}, text);
    FreshRunIs({}, text, 1);
    if i > 0 {
      ChunksAreLongest(text[n..], i - 1);
    } else {
      var m := FreshRun({}, text[n..]);
      FreshRunIs({}, text[n..], 1);
      assert Greedy(text)[1] == text[n..][..m];
      assert text[..n + 1] == text[..n] + [text[n]];
      FreshRunIs({}, text, n);
      FreshRunIs({}, text, n + 1);
    }
  }

  // ------------------------------------------------------------- optimal ---

  /** Greedy stays ahead: over the text that is left, it never needs more chunks than what is left of another split. */
  lemma {:induction false} StaysAhead(left: string, split: seq<string>, k: nat)
    requires forall c <- split :: Distinct(c)
    requires k <= |Concat(split)| && left == Concat(split)[k..]
    ensures |Greedy(left)| <= |split|
    decreases |split|
  {
    if left != "" {
      var c, rest := split[0], Concat(split[1..]);
      if k >= |c| {
        assert left == rest[k - |c|..];
        StaysAhead(left, split[1..], k - |c|);
      } else {
        var n := FreshRun({}, left);
        var m := |c| - k;
        CoversChunk(left, c, rest, k, n, m);
        StaysAhead(left[n..], split[1..], n - m);
      }
    }
  }

  /** The greedy chunk covers what is left of the other split's. */
  lemma CoversChunk(left: string, c: string, rest: string, k: nat, n: nat, m: nat)
    requires Distinct(c) && k < |c| && left == (c + rest)[k..] && n == FreshRun({}, left) && m == |c| - k
    ensures m <= n <= |left| && n - m <= |rest| && left[n..] == rest[n - m..]
  {
    assert left[..m] == c[k..|c|];
    DistinctSlice(c, k, |c|);
    FreshRunIs({}, left, m);
    assert left == c[k..] + rest;
  }

  /**
   * `distinctKeyChunks` is the best there is: its calls deliver the text
   * exactly, and no sequence of calls that delivers the text, whatever keys it
   * presses, has fewer.
   */
  lemma FewestExactCalls(text: string, calls: seq<string>)
    ensures Sent(Greedy(text)) == text && Concat(Greedy(text)) == text
    ensures Sent(calls) == text ==> |Greedy(text)| <= |calls|
  {
    GreedyIsExact(text);
    if Sent(calls) == text {
      SentIsArriving(calls);
      forall c <- Arriving(calls)
        ensures Distinct(c)
      {
        var i :| 0 <= i < |calls| && Arriving(calls)[i] == c;
        DeliveredDistinct({}, calls[i]);
      }
      assert text == text[0..];
      StaysAhead(text, Arriving(calls), 0);
    }
  }
}
