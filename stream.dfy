/** The stream driver of the ban-only filter: each input line is trimmed, and
    the trimmed line is written out exactly when it is not in the banset. */
module Stream {
  import opened Text

  /** The trimmed form of every input line, in input order. */
  function TrimAll(input: seq<string>): seq<string>
  {
    seq(|input|, i requires 0 <= i < |input| => Trim(input[i]))
  }

  /** The lines of `keys` that are not banned, in order. */
  function Unbanned(banset: set<string>, keys: seq<string>): seq<string>
  {
    if keys == [] then []
    else
      var last := keys[|keys| - 1];
      Unbanned(banset, keys[..|keys| - 1]) + (if last !in banset then [last] else [])
  }

  /** Everything the filter writes for `input`: the trimmed input lines that
      are not in the banset. This is the specification of the stream loop. */
  function Emitted(banset: set<string>, input: seq<string>): seq<string>
  {
    Unbanned(banset, TrimAll(input))
  }

  /** `idx` lists, in increasing order, exactly the positions of `keys`
      that are not banned, and `out` holds the keys at those positions. */
  ghost predicate Selects(banset: set<string>, keys: seq<string>, out: seq<string>, idx: seq<nat>)
  {
    && |idx| == |out|
    && (forall k :: 0 <= k < |idx| ==> idx[k] < |keys| && out[k] == keys[idx[k]])
    && (forall k, m :: 0 <= k < m < |idx| ==> idx[k] < idx[m])
    && (forall i :: 0 <= i < |keys| ==> (keys[i] !in banset <==> i in idx))
  }

  /** The positions of the keys that are not banned, in increasing order. */
  ghost function Survivors(banset: set<string>, keys: seq<string>): seq<nat>
  {
    if keys == [] then []
    else
      var n := |keys| - 1;
      Survivors(banset, keys[..n]) + (if keys[n] !in banset then [n] else [])
  }

  /** One more key extends a selection by that key's contribution. */
  lemma SelectsExtend(banset: set<string>, keys: seq<string>, out: seq<string>, idx: seq<nat>)
    requires keys != []
    requires Selects(banset, keys[..|keys| - 1], out, idx)
    ensures var n := |keys| - 1;
      Selects(banset, keys, out + (if keys[n] !in banset then [keys[n]] else []),
              idx + (if keys[n] !in banset then [n] else []))
  {
    var n := |keys| - 1;
    var init := keys[..n];
    assert forall k :: 0 <= k < |idx| ==> idx[k] < n;
    if keys[n] !in banset {
      var idx', out' := idx + [n], out + [keys[n]];
      forall k | 0 <= k < |idx'|
        ensures idx'[k] < |keys| && out'[k] == keys[idx'[k]]
      {
        if k < |idx| {
          assert idx'[k] == idx[k] && out'[k] == out[k] && keys[idx[k]] == init[idx[k]];
        }
      }
      forall i | 0 <= i < |keys|
        ensures keys[i] !in banset <==> i in idx'
      {
        if i < n {
          assert keys[i] == init[i];
          assert i in idx' <==> i in idx;
        }
      }
    } else {
      assert idx + [] == idx && out + [] == out;
      forall k | 0 <= k < |idx| ensures out[k] == keys[idx[k]] {
        assert keys[idx[k]] == init[idx[k]];
      }
      forall i | 0 <= i < |keys|
        ensures keys[i] !in banset <==> i in idx
      {
        if i < n {
          assert keys[i] == init[i];
        } else {
          assert n !in idx;
        }
      }
    }
  }

  /** `Unbanned` keeps exactly the keys that are not banned, each once, in
      their original order. */
  lemma {:induction false} UnbannedSelects(banset: set<string>, keys: seq<string>)
    ensures Selects(banset, keys, Unbanned(banset, keys), Survivors(banset, keys))
  {
    if keys != [] {
      var n := |keys| - 1;
      UnbannedSelects(banset, keys[..n]);
      SelectsExtend(banset, keys, Unbanned(banset, keys[..n]), Survivors(banset, keys[..n]));
    }
  }

  /** The output is the trimmed input with the banned lines removed: there
      is an increasing list of input positions, holding exactly the lines
      whose trimmed form is not banned, and the output is the trimmed lines
      at those positions, in that order. */
  lemma EmittedSubsequence(banset: set<string>, input: seq<string>)
    ensures exists idx :: Selects(banset, TrimAll(input), Emitted(banset, input), idx)
  {
    var keys := TrimAll(input);
    UnbannedSelects(banset, keys);
    assert Selects(banset, keys, Emitted(banset, input), Survivors(banset, keys));
  }

  /** No emitted line is banned, and every emitted line is the trim of some
      input line, so it is itself trimmed. */
  lemma EmittedSound(banset: set<string>, input: seq<string>)
    ensures forall k :: 0 <= k < |Emitted(banset, input)| ==>
      var t := Emitted(banset, input)[k];
      t !in banset && IsTrimmed(t) && exists i :: 0 <= i < |input| && Trim(input[i]) == t
  {
    var keys := TrimAll(input);
    var idx := Survivors(banset, keys);
    UnbannedSelects(banset, keys);
    forall k | 0 <= k < |idx|
      ensures keys[idx[k]] !in banset
    {
      assert idx[k] in idx;
    }
  }

  /** An input line's trimmed form is emitted exactly when it is not in the
      banset; a banned line produces nothing. */
  lemma EmittedComplete(banset: set<string>, input: seq<string>)
    ensures forall i :: 0 <= i < |input| ==>
      (Trim(input[i]) in Emitted(banset, input) <==> Trim(input[i]) !in banset)
  {
    var keys := TrimAll(input);
    var idx := Survivors(banset, keys);
    UnbannedSelects(banset, keys);
    EmittedSound(banset, input);
    forall i | 0 <= i < |input| && Trim(input[i]) !in banset
      ensures Trim(input[i]) in Emitted(banset, input)
    {
      assert keys[i] !in banset;
      var k :| 0 <= k < |idx| && idx[k] == i;
    }
  }

  lemma UnbannedSnoc(banset: set<string>, keys: seq<string>, key: string)
    ensures Unbanned(banset, keys + [key]) == Unbanned(banset, keys) + (if key !in banset then [key] else [])
  {
    assert (keys + [key])[..|keys|] == keys;
  }

  /** The filter works line by line: the output for two stretches of input
      read one after the other is the output for the first followed by the
      output for the second, so every surviving line can be written before
      the next one is read. */
  lemma {:induction false} UnbannedAppend(banset: set<string>, a: seq<string>, b: seq<string>)
    ensures Unbanned(banset, a + b) == Unbanned(banset, a) + Unbanned(banset, b)
  {
    if b != [] {
      var n := |b| - 1;
      assert a + b == (a + b[..n]) + [b[n]];
      UnbannedSnoc(banset, a + b[..n], b[n]);
      UnbannedAppend(banset, a, b[..n]);
      assert b[..n] + [b[n]] == b;
      UnbannedSnoc(banset, b[..n], b[n]);
    } else {
      assert a + b == a;
    }
  }

  lemma EmittedAppend(banset: set<string>, a: seq<string>, b: seq<string>)
    ensures Emitted(banset, a + b) == Emitted(banset, a) + Emitted(banset, b)
  {
    assert TrimAll(a + b) == TrimAll(a) + TrimAll(b);
    UnbannedAppend(banset, TrimAll(a), TrimAll(b));
  }

  /** Keys none of which is banned all pass through. */
  lemma {:induction false} UnbannedKeepsClean(banset: set<string>, keys: seq<string>)
    requires forall k :: 0 <= k < |keys| ==> keys[k] !in banset
    ensures Unbanned(banset, keys) == keys
  {
    if keys != [] {
      var n := |keys| - 1;
      UnbannedKeepsClean(banset, keys[..n]);
      assert keys[..n] + [keys[n]] == keys;
    }
  }

  /** Filtering the filter's own output with the same banset changes
      nothing. */
  lemma EmittedIdempotent(banset: set<string>, input: seq<string>)
    ensures Emitted(banset, Emitted(banset, input)) == Emitted(banset, input)
  {
    var out := Emitted(banset, input);
    EmittedSound(banset, input);
    forall k | 0 <= k < |out| ensures Trim(out[k]) == out[k] {
      TrimOfTrimmed(out[k]);
    }
    assert TrimAll(out) == out;
    UnbannedKeepsClean(banset, out);
  }

  /** The stream loop: for each line read, write its trimmed form when that
      is not banned. `stdout` collects what is written, in order. */
  method FilterStream(banset: set<string>, stdin: seq<string>) returns (stdout: seq<string>)
    ensures stdout == Emitted(banset, stdin)
  {
    ghost var keys := TrimAll(stdin);
    stdout := [];
    var i := 0;
    while i < |stdin|
      invariant 0 <= i <= |stdin|
      invariant stdout == Unbanned(banset, keys[..i])
    {
      var line := stdin[i];
      var t := Trim(line);
      if t !in banset {
        stdout := stdout + [t];
      }
      assert keys[..i + 1] == keys[..i] + [t];
      UnbannedSnoc(banset, keys[..i], t);
      i := i + 1;
    }
    assert keys[..i] == keys;
  }
}
