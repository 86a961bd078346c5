/**
 * The Python `str` operations the serializers rely on, over `seq<char>`:
 * prefix matching (`re.match` on a literal pattern), `str.find`,
 * `str.split(sep)`, `sep.join(parts)`, `str.replace(old, new)` and `str.lower()`.
 * Patterns and separators are non-empty, as at every call site.
 */
module PyStr {
  import opened Wrappers

  /** `p` occurs in `s` starting at index `i`. */
  predicate MatchAt(s: string, p: string, i: nat)
  {
    i + |p| <= |s| && s[i..i + |p|] == p
  }

  /** `s.startswith(p)`, and equally `re.match(p, s)` for a pattern without metacharacters. */
  predicate StartsWith(s: string, p: string)
  {
    MatchAt(s, p, 0)
  }

  /** `p in s`. */
  predicate Occurs(s: string, p: string)
  {
    exists i: nat | i <= |s| :: MatchAt(s, p, i)
  }

  /** Dropping the first character shifts every match one place to the left. */
  lemma MatchAtTail(s: string, p: string, i: nat)
    requires |s| > 0
    ensures MatchAt(s[1..], p, i) <==> MatchAt(s, p, i + 1)
  {
    if i + 1 + |p| <= |s| {
      assert s[1..][i..i + |p|] == s[i + 1..i + 1 + |p|];
    }
  }

  /** `s.find(p)`: the lowest index where `p` occurs, or None (Python's -1). */
  function Find(s: string, p: string): (r: Option<nat>)
    requires p != []
    ensures r.Some? ==> MatchAt(s, p, r.value)
    ensures r.Some? ==> forall j: nat :: j < r.value ==> !MatchAt(s, p, j)
    ensures r.None? ==> forall j: nat :: !MatchAt(s, p, j)
    decreases |s|
  {
    if |s| < |p| then None
    else if s[..|p|] == p then Some(0)
    else
      match Find(s[1..], p)
      case None =>
        assert forall j: nat :: !MatchAt(s, p, j) by {
          forall j: nat ensures !MatchAt(s, p, j) {
            if j > 0 { MatchAtTail(s, p, j - 1); }
          }
        }
        None
      case Some(i) =>
        assert MatchAt(s, p, i + 1) by { MatchAtTail(s, p, i); }
        assert forall j: nat :: j < i + 1 ==> !MatchAt(s, p, j) by {
          forall j: nat | j < i + 1 ensures !MatchAt(s, p, j) {
            if j > 0 { MatchAtTail(s, p, j - 1); }
          }
        }
        Some(i + 1)
  }

  /** `s.split(sep)`: the pieces between the non-overlapping occurrences of `sep`, scanning left to right. */
  function Split(s: string, sep: string): (parts: seq<string>)
    requires sep != []
    ensures |parts| >= 1
    decreases |s|
  {
    match Find(s, sep)
    case None => [s]
    case Some(i) => [s[..i]] + Split(s[i + |sep|..], sep)
  }

  /** `sep.join(parts)`. */
  function Join(sep: string, parts: seq<string>): (r: string)
  {
    if |parts| == 0 then ""
    else if |parts| == 1 then parts[0]
    else parts[0] + sep + Join(sep, parts[1..])
  }

  /** `s.replace(p, rep)`: every non-overlapping occurrence of `p`, taken left to right, becomes `rep`. */
  function Replace(s: string, p: string, rep: string): (r: string)
    requires p != []
    decreases |s|
  {
    if |s| < |p| then s
    else if s[..|p|] == p then rep + Replace(s[|p|..], p, rep)
    else [s[0]] + Replace(s[1..], p, rep)
  }

  /** No piece of a split contains the separator. */
  lemma {:induction false} SplitPiecesFree(s: string, sep: string)
    requires sep != []
    ensures forall k :: 0 <= k < |Split(s, sep)| ==> !Occurs(Split(s, sep)[k], sep)
    decreases |s|
  {
    match Find(s, sep)
    case None =>
    case Some(i) =>
      var rest := s[i + |sep|..];
      SplitPiecesFree(rest, sep);
      forall j: nat ensures !MatchAt(s[..i], sep, j) {
        if MatchAt(s[..i], sep, j) {
          assert s[..i][j..j + |sep|] == s[j..j + |sep|];
          assert MatchAt(s, sep, j);
        }
      }
      assert Split(s, sep) == [s[..i]] + Split(rest, sep);
  }

  /** Joining the pieces of a split with the same separator gives back the string. */
  lemma {:induction false} JoinSplit(s: string, sep: string)
    requires sep != []
    ensures Join(sep, Split(s, sep)) == s
    decreases |s|
  {
    match Find(s, sep)
    case None =>
    case Some(i) =>
      var rest := s[i + |sep|..];
      var tail := Split(rest, sep);
      assert Split(s, sep) == [s[..i]] + tail;
      assert Join(sep, [s[..i]] + tail) == s[..i] + sep + Join(sep, tail);
      JoinSplit(rest, sep);
      assert s[i..i + |sep|] == sep;
      assert s == s[..i] + sep + rest;
  }

  /** Before the first match, Replace copies characters unchanged. */
  lemma {:induction false} ReplaceCopiesPrefix(s: string, p: string, rep: string, i: nat)
    requires p != [] && i <= |s|
    requires forall j: nat :: j < i ==> !MatchAt(s, p, j)
    ensures Replace(s, p, rep) == s[..i] + Replace(s[i..], p, rep)
    decreases i
  {
    if i == 0 {
      assert s[..0] + s[0..] == s;
    } else if |s| < |p| {
      assert s[..i] + s[i..] == s;
    } else {
      assert !MatchAt(s, p, 0);
      forall j: nat | j < i - 1 ensures !MatchAt(s[1..], p, j) {
        MatchAtTail(s, p, j);
      }
      ReplaceCopiesPrefix(s[1..], p, rep, i - 1);
      assert s[1..][i - 1..] == s[i..];
      assert [s[0]] + s[1..][..i - 1] == s[..i];
    }
  }

  /** Python's identity `s.replace(p, rep) == rep.join(s.split(p))`. */
  lemma {:induction false} ReplaceIsJoinOfSplit(s: string, p: string, rep: string)
    requires p != []
    ensures Replace(s, p, rep) == Join(rep, Split(s, p))
    decreases |s|
  {
    match Find(s, p)
    case None =>
      ReplaceCopiesPrefix(s, p, rep, |s|);
      assert s[..|s|] == s;
      assert Replace(s[|s|..], p, rep) == [];
    case Some(i) =>
      var rest := s[i + |p|..];
      ReplaceCopiesPrefix(s, p, rep, i);
      assert s[i..][..|p|] == p;
      assert s[i..][|p|..] == rest;
      ReplaceIsJoinOfSplit(rest, p, rep);
  }

  /** A string without an occurrence of `p` is left unchanged by Replace. */
  lemma ReplaceWithoutMatch(s: string, p: string, rep: string)
    requires p != [] && !Occurs(s, p)
    ensures Replace(s, p, rep) == s
  {
    ReplaceCopiesPrefix(s, p, rep, |s|);
    assert s[..|s|] == s;
  }

  /** Removing `p` from a string that starts with it shortens the string by at least `|p|`. */
  lemma {:induction false} RemoveShortens(s: string, p: string)
    requires p != []
    ensures |Replace(s, p, "")| <= |s|
    ensures StartsWith(s, p) ==> |Replace(s, p, "")| <= |s| - |p|
    decreases |s|
  {
    if |s| < |p| {
    } else if s[..|p|] == p {
      RemoveShortens(s[|p|..], p);
    } else {
      RemoveShortens(s[1..], p);
    }
  }

  /** `c.lower()` for ASCII letters; every other character is left as it is. */
  function LowerChar(c: char): char
  {
    if 'A' <= c <= 'Z' then (c as int + 32) as char else c
  }

  /** `s.lower()`, character by character. */
  function Lower(s: string): (r: string)
    ensures |r| == |s|
    ensures forall i :: 0 <= i < |s| ==> r[i] == LowerChar(s[i])
  {
    seq(|s|, i requires 0 <= i < |s| => LowerChar(s[i]))
  }

  /** Lower-casing is idempotent, and a string without an ASCII capital is already lower-case. */
  lemma LowerFixesLowercase(s: string)
    ensures Lower(Lower(s)) == Lower(s)
    ensures (forall i :: 0 <= i < |s| ==> !('A' <= s[i] <= 'Z')) ==> Lower(s) == s
  {
    var l := Lower(s);
    forall i | 0 <= i < |s| ensures Lower(l)[i] == l[i] {
      assert !('A' <= l[i] <= 'Z');
    }
  }

  /** `m.lower() == "get"` holds exactly for the eight spellings of GET with any mix of cases. */
  lemma LowerIsGet(m: string)
    ensures Lower(m) == "get" <==>
      |m| == 3 && m[0] in "gG" && m[1] in "eE" && m[2] in "tT"
  {
    if |m| == 3 && Lower(m) == "get" {
      assert LowerChar(m[0]) == 'g' && LowerChar(m[1]) == 'e' && LowerChar(m[2]) == 't';
    }
    if |m| == 3 && m[0] in "gG" && m[1] in "eE" && m[2] in "tT" {
      assert Lower(m) == [Lower(m)[0], Lower(m)[1], Lower(m)[2]];
    }
  }
}
