/**
 * The Konami-code easter egg of the site script: every key name the page
 * receives is pushed onto a buffer, the buffer is cut back to its last ten
 * entries, and the easter egg fires when the buffer, joined into one string,
 * equals the joined trigger sequence.
 */
module Konami {

  /** How many key names the buffer keeps (`slice(-10)`). */
  const Window: nat := 10

  /** The trigger sequence, oldest key first. */
  function Target(): (r: seq<string>)
    ensures |r| == Window
    ensures forall i :: 0 <= i < |r| ==> r[i] != ""
  {
    ["ArrowUp", "ArrowUp", "ArrowDown", "ArrowDown", "ArrowLeft", "ArrowRight",
     "ArrowLeft", "ArrowRight", "b", "a"]
  }

  /** JavaScript's `slice(-10)` on the buffer: its last ten entries, or all of it when shorter. */
  function Trim(keys: seq<string>): (r: seq<string>)
    ensures |r| == if |keys| < Window then |keys| else Window
    ensures r == keys[|keys| - |r|..]
  {
    if |keys| <= Window then keys else keys[|keys| - Window..]
  }

  /** JavaScript's `join('')` on key names: the names written one after another. */
  function Join(keys: seq<string>): (r: string)
    ensures keys == [] ==> r == ""
    ensures |keys| == 1 ==> r == keys[0]
  {
    if keys == [] then "" else keys[0] + Join(keys[1..])
  }

  /** Trimming after every push keeps exactly the last ten keys of the whole history. */
  lemma TrimAfterPush(history: seq<string>, key: string)
    ensures Trim(Trim(history) + [key]) == Trim(history + [key])
  {
  }

  /** No trigger key name is a prefix of a different one. */
  lemma TargetKeyPrefix(x: string, y: string)
    requires x in Target() && y in Target()
    requires |x| <= |y| && x == y[..|x|]
    ensures x == y
  {
    assert x[0] == y[0];
    if |x| > 5 {
      assert x[5] == y[5];
    }
  }

  /** Two trigger key names followed by anything agree only when the names agree. */
  lemma TargetKeysPrefixFree(x: string, y: string, u: string, v: string)
    requires x in Target() && y in Target()
    requires x + u == y + v
    ensures x == y && u == v
  {
    if |x| <= |y| {
      assert x == (x + u)[..|x|];
      assert y[..|x|] == (y + v)[..|x|];
      TargetKeyPrefix(x, y);
    } else {
      assert y == (y + v)[..|y|];
      assert x[..|y|] == (x + u)[..|y|];
      TargetKeyPrefix(y, x);
    }
    assert u == (x + u)[|x|..];
    assert v == (y + v)[|y|..];
  }

  /** Over the trigger key names, `join('')` loses nothing: equal joins mean equal buffers. */
  lemma {:induction false} JoinInjective(s: seq<string>, t: seq<string>)
    requires forall i :: 0 <= i < |s| ==> s[i] in Target()
    requires forall i :: 0 <= i < |t| ==> t[i] in Target()
    requires Join(s) == Join(t)
    ensures s == t
  {
    if s != [] && t != [] {
      assert s[0] in Target() && t[0] in Target();
      TargetKeysPrefixFree(s[0], t[0], Join(s[1..]), Join(t[1..]));
      JoinInjective(s[1..], t[1..]);
      assert s == [s[0]] + s[1..];
      assert t == [t[0]] + t[1..];
    }
  }

  /** Every entry of the trigger sequence is a trigger key name. */
  lemma TargetKeysAreTargetKeys()
    ensures forall i :: 0 <= i < |Target()| ==> Target()[i] in Target()
  {
  }

  /**
   * When every buffered key is one of the trigger key names, the joined
   * comparison fires exactly when the buffer is the trigger sequence.
   */
  lemma ActivatesExactlyOnTarget(buffer: seq<string>)
    requires forall i :: 0 <= i < |buffer| ==> buffer[i] in Target()
    ensures Join(buffer) == Join(Target()) <==> buffer == Target()
  {
    var t := Target();
    TargetKeysAreTargetKeys();
    if Join(buffer) == Join(t) {
      JoinInjective(buffer, t);
    }
  }

  /** `join('')` distributes over concatenation of buffers. */
  lemma {:induction false} JoinAppend(s: seq<string>, t: seq<string>)
    ensures Join(s + t) == Join(s) + Join(t)
  {
    if s == [] {
      assert s + t == t;
    } else {
      assert (s + t)[1..] == s[1..] + t;
      JoinAppend(s[1..], t);
    }
  }

  /**
   * With key names outside the trigger set, the joined comparison is coarser
   * than comparing the buffers: nine keys, the first of which reads
   * "ArrowUpArrowUp", fire the easter egg as well.
   */
  lemma JoinedComparisonAcceptsOtherBuffers()
    ensures var b := ["ArrowUpArrowUp", "ArrowDown", "ArrowDown", "ArrowLeft", "ArrowRight",
                      "ArrowLeft", "ArrowRight", "b", "a"];
            b != Target() && Join(b) == Join(Target())
  {
    var b := ["ArrowUpArrowUp", "ArrowDown", "ArrowDown", "ArrowLeft", "ArrowRight",
              "ArrowLeft", "ArrowRight", "b", "a"];
    var tail := ["ArrowDown", "ArrowDown", "ArrowLeft", "ArrowRight", "ArrowLeft", "ArrowRight", "b", "a"];
    assert b == ["ArrowUpArrowUp"] + tail;
    assert Target() == ["ArrowUp", "ArrowUp"] + tail;
    JoinAppend(["ArrowUpArrowUp"], tail);
    JoinAppend(["ArrowUp", "ArrowUp"], tail);
    assert Join(["ArrowUp", "ArrowUp"]) == "ArrowUp" + Join(["ArrowUp"]);
    assert Join(["ArrowUp"]) == "ArrowUp" + Join([]);
    assert Join(["ArrowUpArrowUp"]) == "ArrowUpArrowUp" + Join([]);
    assert |b| != |Target()|;
  }

  /** The easter-egg object: a key buffer and the fixed trigger sequence. */
  class KonamiCode {
    /** The buffered key names, oldest first. */
    var code: seq<string>
    /** The trigger sequence; assigned once by the constructor. */
    const sequence: seq<string>
    /** Every key name received so far, oldest first. */
    ghost var received: seq<string>

    /** The buffer is always the last ten keys received. */
    ghost predicate Valid()
      reads this
    {
      |sequence| == Window && code == Trim(received)
    }

    constructor ()
      ensures Valid()
      ensures sequence == Target()
      ensures code == [] && received == []
    {
      code := [];
      sequence := Target();
      received := [];
    }

    /**
     * Handles one keydown: pushes the key name, trims the buffer to ten and
     * reports whether the easter egg is activated by this key.
     */
    method CheckCode(key: string) returns (activated: bool)
      requires Valid()
      modifies this
      ensures Valid()
      ensures received == old(received) + [key]
      ensures |code| == if |received| < Window then |received| else Window
      ensures code == received[|received| - |code|..]
      ensures activated <==> Join(code) == Join(sequence)
      ensures Window <= |received| && received[|received| - Window..] == sequence ==> activated
    {
      TrimAfterPush(received, key);
      code := code + [key];
      code := Trim(code);
      received := received + [key];
      assert code == Trim(received);
      activated := Join(code) == Join(sequence);
      if Window <= |received| && received[|received| - Window..] == sequence {
        assert code == sequence;
      }
    }
  }
}
