/**
 * The interactive finding navigator (main.go, main): a current index over a
 * fixed list of `total` findings, moved by single key presses.
 * Key presses are given to the model as a sequence; the terminal output is
 * recorded as the list of effects the loop performs, each naming the index
 * of the finding it reads.
 */
module Navigator {

  /** One piece of output the loop produces for the finding at `index`. */
  datatype Effect =
    | Render(index: int)        // printFinding: summary line and help line
    | PrintDetails(index: int)  // 'p': the finding as indented JSON
    | AskAdvice(index: int)     // 'd': the remediation question

  /** What one key press does: carry on at a new index with some output, or quit. */
  datatype Transition = Continue(index: int, effects: seq<Effect>) | Exit

  /** The state after reading some keys: the index, how many keys were read,
      whether 'q' ended the loop, and the output so far. */
  datatype Session = Session(index: int, consumed: nat, quit: bool, effects: seq<Effect>)

  predicate InRange(index: int, total: int) {
    0 <= index < total
  }

  /** Every output reads a finding that exists. */
  predicate EffectsInRange(effects: seq<Effect>, total: int) {
    forall e :: e in effects ==> InRange(e.index, total)
  }

  /** One pass of the key-dispatch switch. */
  function Step(index: int, total: int, key: char): (t: Transition)
    requires InRange(index, total)
    ensures t.Exit? <==> key == 'q'
    ensures t.Continue? ==> InRange(t.index, total) && EffectsInRange(t.effects, total)
    ensures key == 'j' ==> t.Continue? && t.index == (if index == total - 1 then index else index + 1)
    ensures key == 'k' ==> t.Continue? && t.index == (if index == 0 then 0 else index - 1)
    ensures key == 'j' || key == 'k' ==> t.effects == [Render(t.index)]
    ensures key == 'p' ==> t == Continue(index, [PrintDetails(index), Render(index)])
    ensures key == 'd' ==> t == Continue(index, [AskAdvice(index), Render(index)])
    ensures key != 'j' && key != 'k' && key != 'p' && key != 'd' && key != 'q' ==> t == Continue(index, [])
  {
    match key
    case 'j' =>
      var i := index + 1;
      var i' := if i >= total then total - 1 else i;
      Continue(i', [Render(i')])
    case 'k' =>
      var i := index - 1;
      var i' := if i < 0 then 0 else i;
      Continue(i', [Render(i')])
    case 'p' => Continue(index, [PrintDetails(index), Render(index)])
    case 'd' => Continue(index, [AskAdvice(index), Render(index)])
    case 'q' => Exit
    case _ => Continue(index, [])
  }

  /** The session after reading one more key: one pass of the switch. */
  function Advance(prev: Session, total: int, key: char): (s: Session)
    requires InRange(prev.index, total)
    ensures s.consumed == prev.consumed + 1
    ensures s.quit <==> key == 'q'
    ensures InRange(s.index, total)
    ensures prev.effects <= s.effects
  {
    match Step(prev.index, total, key)
    case Exit => prev.(consumed := prev.consumed + 1, quit := true)
    case Continue(i, es) => Session(i, prev.consumed + 1, false, prev.effects + es)
  }

  /** The state after feeding `keys`, one at a time, from `start`; keys after a
      'q' are never read. */
  function Replay(start: int, total: int, keys: seq<char>): (s: Session)
    requires InRange(start, total)
    ensures InRange(s.index, total)
    ensures EffectsInRange(s.effects, total)
    ensures s.consumed <= |keys|
  {
    if keys == [] then Session(start, 0, false, [])
    else
      var prev := Replay(start, total, keys[..|keys| - 1]);
      if prev.quit then prev else Advance(prev, total, keys[|keys| - 1])
  }

  /** The state after reading the first `n` keys, counted by position. */
  function ReplayUpTo(start: int, total: int, keys: seq<char>, n: nat): (s: Session)
    requires InRange(start, total) && n <= |keys|
    ensures InRange(s.index, total)
  {
    if n == 0 then Session(start, 0, false, [])
    else
      var prev := ReplayUpTo(start, total, keys, n - 1);
      if prev.quit then prev else Advance(prev, total, keys[n - 1])
  }

  /** Reading the first `n` keys by position is replaying the prefix of length `n`. */
  lemma {:induction false} ReplayUpToPrefix(start: int, total: int, keys: seq<char>, n: nat)
    requires InRange(start, total) && n <= |keys|
    ensures ReplayUpTo(start, total, keys, n) == Replay(start, total, keys[..n])
  {
    if n > 0 {
      ReplayUpToPrefix(start, total, keys, n - 1);
      var read := keys[..n];
      assert read[..|read| - 1] == keys[..n - 1];
    }
  }

  /** After a 'q' has been read, reading further positions changes nothing. */
  lemma {:induction false} ReplayUpToAfterQuit(start: int, total: int, keys: seq<char>, n: nat, m: nat)
    requires InRange(start, total) && n <= m <= |keys|
    requires ReplayUpTo(start, total, keys, n).quit
    ensures ReplayUpTo(start, total, keys, m) == ReplayUpTo(start, total, keys, n)
    decreases m - n
  {
    if n < m {
      ReplayUpToAfterQuit(start, total, keys, n, m - 1);
    }
  }

  /** Once the loop has quit, or has read every key, the state it holds is the
      replay of all the keys. */
  lemma ReplayUpToStopped(start: int, total: int, keys: seq<char>, n: nat)
    requires InRange(start, total) && n <= |keys|
    requires ReplayUpTo(start, total, keys, n).quit || n == |keys|
    ensures ReplayUpTo(start, total, keys, n) == Replay(start, total, keys)
  {
    if n < |keys| {
      ReplayUpToAfterQuit(start, total, keys, n, |keys|);
    }
    ReplayUpToPrefix(start, total, keys, |keys|);
    assert keys[..|keys|] == keys;
  }

  /** The loop ends exactly at the first 'q': it has quit iff a 'q' was pressed,
      the last key read is that 'q', and without a 'q' every key is read. */
  lemma {:induction false} ReplayStopsAtQuit(start: int, total: int, keys: seq<char>)
    requires InRange(start, total)
    ensures Replay(start, total, keys).quit <==> 'q' in keys
    ensures Replay(start, total, keys).quit ==>
              var n := Replay(start, total, keys).consumed;
              0 < n && keys[n - 1] == 'q' && 'q' !in keys[..n - 1]
    ensures !Replay(start, total, keys).quit ==> Replay(start, total, keys).consumed == |keys|
  {
    if keys != [] {
      var init := keys[..|keys| - 1];
      ReplayStopsAtQuit(start, total, init);
      assert keys == init + [keys[|keys| - 1]];
      var prev := Replay(start, total, init);
      if prev.quit {
        assert keys[..prev.consumed - 1] == init[..prev.consumed - 1];
      }
    }
  }

  /** Once 'q' has been read, further keys change nothing. */
  lemma {:induction false} ReplayIgnoresKeysAfterQuit(start: int, total: int, keys: seq<char>, more: seq<char>)
    requires InRange(start, total)
    requires Replay(start, total, keys).quit
    ensures Replay(start, total, keys + more) == Replay(start, total, keys)
    decreases |more|
  {
    if more == [] {
      assert keys + more == keys;
    } else {
      var init := more[..|more| - 1];
      ReplayIgnoresKeysAfterQuit(start, total, keys, init);
      assert (keys + more)[..|keys + more| - 1] == keys + init;
    }
  }

  /** Keys other than 'j' and 'k' never move the index. */
  lemma {:induction false} ReplayWithoutMovesKeepsIndex(start: int, total: int, keys: seq<char>)
    requires InRange(start, total)
    requires forall i :: 0 <= i < |keys| ==> keys[i] != 'j' && keys[i] != 'k'
    ensures Replay(start, total, keys).index == start
  {
    if keys != [] {
      ReplayWithoutMovesKeepsIndex(start, total, keys[..|keys| - 1]);
    }
  }

  /** The key `c` pressed `n` times. */
  function Repeat(c: char, n: nat): (keys: seq<char>)
    ensures |keys| == n
    ensures forall i :: 0 <= i < n ==> keys[i] == c
  {
    if n == 0 then [] else Repeat(c, n - 1) + [c]
  }

  /** A key read before any 'q' moves the index as one pass of the switch does. */
  lemma ReplayOneMore(start: int, total: int, keys: seq<char>, key: char)
    requires InRange(start, total)
    requires !Replay(start, total, keys).quit && key != 'q'
    ensures Replay(start, total, keys + [key]).index == Step(Replay(start, total, keys).index, total, key).index
  {
    assert (keys + [key])[..|keys|] == keys;
  }

  /** n presses of 'j' move forward n places, stopping at the last finding. */
  lemma {:induction false} ReplayForward(start: int, total: int, n: nat)
    requires InRange(start, total)
    ensures Replay(start, total, Repeat('j', n)).index ==
              (if start + n < total then start + n else total - 1)
  {
    if n > 0 {
      var prev := Repeat('j', n - 1);
      assert Repeat('j', n) == prev + ['j'];
      ReplayForward(start, total, n - 1);
      ReplayStopsAtQuit(start, total, prev);
      assert 'q' !in prev;
      ReplayOneMore(start, total, prev, 'j');
      assert Replay(start, total, Repeat('j', n)).index == Step(Replay(start, total, prev).index, total, 'j').index;
    }
  }

  /** n presses of 'k' move back n places, stopping at the first finding. */
  lemma {:induction false} ReplayBackward(start: int, total: int, n: nat)
    requires InRange(start, total)
    ensures Replay(start, total, Repeat('k', n)).index ==
              (if start - n >= 0 then start - n else 0)
  {
    if n > 0 {
      var prev := Repeat('k', n - 1);
      assert Repeat('k', n) == prev + ['k'];
      ReplayBackward(start, total, n - 1);
      ReplayStopsAtQuit(start, total, prev);
      assert 'q' !in prev;
      ReplayOneMore(start, total, prev, 'k');
      assert Replay(start, total, Repeat('k', n)).index == Step(Replay(start, total, prev).index, total, 'k').index;
    }
  }

  /** Appending to the output log after its first redraw. Stated once here so
      that the loop below does not re-derive it in its larger context. */
  lemma LogAppend(first: Effect, log: seq<Effect>, mid: seq<Effect>, last: Effect)
    ensures [first] + log + mid + [last] == [first] + (log + (mid + [last]))
  {
  }

  /** The event loop of main: draw the first finding, then read keys until 'q'
      (or until no key is left) and dispatch each one. */
  method Navigate(total: int, keys: seq<char>) returns (currentIndex: int, consumed: nat, quit: bool, effects: seq<Effect>)
    requires total >= 1
    ensures effects != [] && effects[0] == Render(0)
    ensures Session(currentIndex, consumed, quit, effects[1..]) == Replay(0, total, keys)
    ensures InRange(currentIndex, total)
    ensures EffectsInRange(effects, total)
  {
    currentIndex := 0;
    effects := [Render(currentIndex)];
    consumed := 0;
    quit := false;
    ghost var session := ReplayUpTo(0, total, keys, 0);
    while consumed < |keys| && !quit
      invariant consumed <= |keys|
      invariant session == ReplayUpTo(0, total, keys, consumed)
      invariant session == Session(currentIndex, consumed, quit, session.effects)
      invariant effects == [Render(0)] + session.effects
    {
      var key := keys[consumed];
      ghost var next := Advance(session, total, key);
      ghost var mid: seq<Effect> := [];
      consumed := consumed + 1;
      if key == 'j' {
        currentIndex := currentIndex + 1;
        if currentIndex >= total {
          currentIndex := total - 1;
        }
      } else if key == 'k' {
        currentIndex := currentIndex - 1;
        if currentIndex < 0 {
          currentIndex := 0;
        }
      } else if key == 'p' {
        effects := effects + [PrintDetails(currentIndex)];
        mid := [PrintDetails(currentIndex)];
      } else if key == 'd' {
        effects := effects + [AskAdvice(currentIndex)];
        mid := [AskAdvice(currentIndex)];
      } else if key == 'q' {
        quit := true;
        assert next == session.(consumed := consumed, quit := true);
        session := next;
        break;
      } else {
        assert next == session.(consumed := consumed);
        session := next;
        continue;
      }
      assert next == Session(currentIndex, consumed, false, session.effects + (mid + [Render(currentIndex)]));
      effects := effects + [Render(currentIndex)];
      LogAppend(Render(0), session.effects, mid, Render(currentIndex));
      session := next;
    }
    ReplayUpToStopped(0, total, keys, consumed);
    assert effects == [Render(0)] + effects[1..];
  }
}
