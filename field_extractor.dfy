/**
 Resolution of a dotted field path (`"pose.position.x"`) against a message.
 A message is a tree of named attributes; `Leaf(Absent)` is an attribute
 whose value is `None`.
 */
module FieldExtractor {
  import opened Values

  datatype Msg = Leaf(v: Value) | Record(attrs: map<string, Msg>)

  /** What a missing attribute, or `None`, resolves to. */
  const NoneMsg: Msg := Leaf(Absent)

  // ---------------------------------------------------------------------
  // Splitting a path at every '.', as Python's `str.split('.')` does
  // ---------------------------------------------------------------------

  /** The pieces of `s` between dots; empty pieces are kept, so a string with
      k dots always gives k + 1 pieces. */
  function SplitPath(s: string): (r: seq<string>)
    ensures |r| >= 1
    ensures forall i :: 0 <= i < |r| ==> '.' !in r[i]
    decreases |s|
  {
    if s == [] then [""]
    else
      var rest := SplitPath(s[1..]);
      if s[0] == '.' then [""] + rest
      else [[s[0]] + rest[0]] + rest[1..]
  }

  /** The inverse of `SplitPath`: the pieces joined with '.'. */
  function JoinPath(parts: seq<string>): string
    requires |parts| >= 1
    decreases |parts|
  {
    if |parts| == 1 then parts[0] else parts[0] + "." + JoinPath(parts[1..])
  }

  predicate DotFree(parts: seq<string>)
  {
    forall i :: 0 <= i < |parts| ==> '.' !in parts[i]
  }

  /** Splitting and joining again gives back the path. */
  lemma {:induction false} JoinSplit(s: string)
    ensures JoinPath(SplitPath(s)) == s
    decreases |s|
  {
    if s != [] {
      var rest := SplitPath(s[1..]);
      JoinSplit(s[1..]);
      if s[0] == '.' {
        assert SplitPath(s) == [""] + rest;
        assert s == [] + "." + s[1..];
      } else {
        var parts := SplitPath(s);
        assert parts == [[s[0]] + rest[0]] + rest[1..];
        if |rest| == 1 {
          assert s == [s[0]] + s[1..];
        } else {
          assert parts[1..] == rest[1..];
          assert JoinPath(rest) == rest[0] + "." + JoinPath(rest[1..]);
          assert s == [s[0]] + s[1..];
        }
      }
    }
  }

  /** A dot-free string is a single piece. */
  lemma {:induction false} SplitDotFree(a: string)
    requires '.' !in a
    ensures SplitPath(a) == [a]
    decreases |a|
  {
    if a != [] {
      assert '.' !in a[1..] by {
        forall k | 0 <= k < |a[1..]| ensures a[1..][k] != '.' { assert a[1..][k] == a[k + 1]; }
      }
      SplitDotFree(a[1..]);
      assert a == [a[0]] + a[1..];
    }
  }

  /** A dot-free head piece followed by a dot splits off as one piece. */
  lemma {:induction false} SplitCons(a: string, b: string)
    requires '.' !in a
    ensures SplitPath(a + "." + b) == [a] + SplitPath(b)
    decreases |a|
  {
    if a == [] {
      assert a + "." + b == ['.'] + b;
      assert (['.'] + b)[1..] == b;
    } else {
      var s := a + "." + b;
      assert s[1..] == a[1..] + "." + b;
      assert '.' !in a[1..] by {
        forall k | 0 <= k < |a[1..]| ensures a[1..][k] != '.' { assert a[1..][k] == a[k + 1]; }
      }
      SplitCons(a[1..], b);
      assert s[0] == a[0];
      assert [a[0]] + a[1..] == a;
    }
  }

  /** Joining dot-free pieces and splitting again gives back the pieces. */
  lemma {:induction false} SplitJoin(parts: seq<string>)
    requires |parts| >= 1 && DotFree(parts)
    ensures SplitPath(JoinPath(parts)) == parts
    decreases |parts|
  {
    if |parts| == 1 {
      SplitDotFree(parts[0]);
    } else {
      assert DotFree(parts[1..]) by {
        forall i | 0 <= i < |parts[1..]| ensures '.' !in parts[1..][i] { assert parts[1..][i] == parts[i + 1]; }
      }
      SplitJoin(parts[1..]);
      SplitCons(parts[0], JoinPath(parts[1..]));
      assert [parts[0]] + parts[1..] == parts;
    }
  }

  // ---------------------------------------------------------------------
  // Walking the path
  // ---------------------------------------------------------------------

  /** `getattr(m, name, None)`: the attribute if `m` has it, otherwise `None`.
      Leaves (numbers, strings, `None`) have no attributes. */
  function Step(m: Msg, name: string): (r: Msg)
    ensures m.Record? && name in m.attrs ==> r == m.attrs[name]
    ensures !(m.Record? && name in m.attrs) ==> r == NoneMsg
  {
    if m.Record? && name in m.attrs then m.attrs[name] else NoneMsg
  }

  /** The full walk of `path` from `m`, with no early exit. */
  function Follow(m: Msg, path: seq<string>): (r: Msg)
    ensures path == [] ==> r == m
    ensures m.Leaf? && path != [] ==> r == NoneMsg
    decreases |path|
  {
    if path == [] then m else Follow(Step(m, path[0]), path[1..])
  }

  lemma {:induction false} FollowAppend(m: Msg, path: seq<string>, k: nat)
    requires k < |path|
    ensures Follow(m, path[..k + 1]) == Step(Follow(m, path[..k]), path[k])
    decreases k
  {
    if k > 0 {
      assert path[..k + 1][1..] == path[1..][..k];
      assert path[..k][1..] == path[1..][..k - 1];
      FollowAppend(Step(m, path[0]), path[1..], k - 1);
    }
  }

  lemma {:induction false} FollowSplit(m: Msg, path: seq<string>, k: nat)
    requires k <= |path|
    ensures Follow(m, path) == Follow(Follow(m, path[..k]), path[k..])
    decreases k
  {
    if k > 0 {
      assert path[..k][1..] == path[1..][..k - 1];
      assert path[k..] == path[1..][k - 1..];
      FollowSplit(Step(m, path[0]), path[1..], k - 1);
    }
  }

  /** `None` has no attributes, so once a walk reaches it, it stays there. */
  lemma {:induction false} NoneAbsorbs(path: seq<string>)
    ensures Follow(NoneMsg, path) == NoneMsg
    decreases |path|
  {
    if path != [] {
      NoneAbsorbs(path[1..]);
    }
  }

  /** A walk that meets `None` at any step ends in `None`; so when the walk
      ends in a value, every step on the way resolved to something. This is
      why stopping at the first `None` returns what the full walk returns. */
  lemma NonePropagates(m: Msg, path: seq<string>, k: nat)
    requires k <= |path| && Follow(m, path[..k]) == NoneMsg
    ensures Follow(m, path) == NoneMsg
  {
    FollowSplit(m, path, k);
    NoneAbsorbs(path[k..]);
  }

  /** `extract_field`: walk the dotted path one attribute at a time and return
      `None` at the first step that is missing or `None`. Falsy values such as
      0 are returned like any other. */
  method ExtractField(msg: Msg, fieldPath: string) returns (r: Msg)
    ensures r == Follow(msg, SplitPath(fieldPath))
    ensures r != NoneMsg ==>
      forall k :: 0 < k <= |SplitPath(fieldPath)| ==> Follow(msg, SplitPath(fieldPath)[..k]) != NoneMsg
  {
    var attrs := SplitPath(fieldPath);
    var val := msg;
    var i := 0;
    while i < |attrs|
      invariant 0 <= i <= |attrs|
      invariant val == Follow(msg, attrs[..i])
      invariant forall k :: 0 < k <= i ==> Follow(msg, attrs[..k]) != NoneMsg
    {
      FollowAppend(msg, attrs, i);
      val := Step(val, attrs[i]);
      if val == NoneMsg {
        NonePropagates(msg, attrs, i + 1);
        return NoneMsg;
      }
      i := i + 1;
    }
    assert attrs[..i] == attrs;
    r := val;
  }

  /** The value a resolved path contributes to a row: a leaf's value; a
      sub-message is a non-numeric object. */
  function FieldValue(m: Msg): (v: Value)
    ensures v.Absent? <==> m == NoneMsg
    ensures m.Leaf? ==> v == m.v
    ensures m.Record? ==> v == NonNumeric
  {
    match m
    case Leaf(x) => x
    case Record(_) => NonNumeric
  }
}
