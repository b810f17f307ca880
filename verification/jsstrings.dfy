/**
 * The JavaScript string operations the plugin's pipeline is built from:
 * `String.prototype.split` and `Array.prototype.join` with a non-empty string
 * separator, and `String.prototype.replace` with a global one-character
 * pattern, which rewrites a string character by character.
 */
module JsStrings {

  /** `s` begins with `p`. */
  predicate StartsWith(s: string, p: string) {
    |p| <= |s| && s[..|p|] == p
  }

  /** An occurrence of `sep` begins at position `i` of `s`. */
  predicate OccursAt(s: string, sep: string, i: nat) {
    i + |sep| <= |s| && s[i..i + |sep|] == sep
  }

  /** `s` holds no occurrence of `sep` anywhere. */
  predicate Free(s: string, sep: string) {
    forall i: nat | i <= |s| :: !OccursAt(s, sep, i)
  }

  /**
   * `s.split(sep)`: the pieces between the leftmost non-overlapping
   * occurrences of `sep`, scanning from the left. Splitting the empty string
   * gives one empty piece.
   */
  function Split(s: string, sep: string): (parts: seq<string>)
    requires sep != []
    ensures |parts| >= 1
    decreases |s|
  {
    if s == [] then [[]]
    else if StartsWith(s, sep) then [[]] + Split(s[|sep|..], sep)
    else
      var rest := Split(s[1..], sep);
      [[s[0]] + rest[0]] + rest[1..]
  }

  /** `parts.join(sep)`; joining no parts gives the empty string. */
  function Join(parts: seq<string>, sep: string): string
  {
    if |parts| == 0 then []
    else if |parts| == 1 then parts[0]
    else parts[0] + sep + Join(parts[1..], sep)
  }

  /** The number of leftmost non-overlapping occurrences of `sep` in `s`. */
  function Occurrences(s: string, sep: string): nat
    requires sep != []
    decreases |s|
  {
    if s == [] then 0
    else if StartsWith(s, sep) then 1 + Occurrences(s[|sep|..], sep)
    else Occurrences(s[1..], sep)
  }

  /** The number of times `c` appears in `s`. */
  function Count(s: string, c: char): nat
  {
    if s == [] then 0 else (if s[0] == c then 1 else 0) + Count(s[1..], c)
  }

  /** `s` with each character `c` replaced by `h(c)`. */
  function MapChars(h: char -> string, s: string): (r: string)
    ensures (forall c :: |h(c)| >= 1) ==> |r| >= |s|
    ensures (forall c :: |h(c)| == 1) ==> |r| == |s|
  {
    if s == [] then [] else h(s[0]) + MapChars(h, s[1..])
  }

  /**
   * `h` leaves every character of `sep` alone, and whatever else it
   * produces is non-empty and free of the characters of `sep`.
   */
  ghost predicate Transparent(h: char -> string, sep: string) {
    && (forall c :: c in sep ==> h(c) == [c])
    && (forall c :: h(c) == [c] || (h(c) != [] && forall d :: d in h(c) ==> d !in sep))
  }

  // ---------------------------------------------------------------------
  // split and join

  lemma {:induction false} JoinCons(a: string, x: string, tail: seq<string>, sep: string)
    ensures Join([a + x] + tail, sep) == a + Join([x] + tail, sep)
  {
    if |tail| == 0 {
      assert [a + x] + tail == [a + x];
      assert [x] + tail == [x];
    } else {
      assert ([a + x] + tail)[1..] == tail;
      assert ([x] + tail)[1..] == tail;
    }
  }

  /** Joining a first part onto at least one more puts the separator between them. */
  lemma {:induction false} JoinFirst(a: string, tail: seq<string>, sep: string)
    requires |tail| >= 1
    ensures Join([a] + tail, sep) == a + sep + Join(tail, sep)
  {
    assert ([a] + tail)[0] == a;
    assert ([a] + tail)[1..] == tail;
  }

  /** Joining the pieces of a split with the same separator gives back the string. */
  lemma {:induction false} JoinSplit(s: string, sep: string)
    requires sep != []
    ensures Join(Split(s, sep), sep) == s
    decreases |s|
  {
    if s == [] {
    } else if StartsWith(s, sep) {
      var tail := s[|sep|..];
      var rest := Split(tail, sep);
      JoinSplit(tail, sep);
      JoinFirst([], rest, sep);
      assert Split(s, sep) == [[]] + rest;
      assert Join(Split(s, sep), sep) == [] + sep + tail;
      assert s == sep + tail;
    } else {
      var tail := s[1..];
      var rest := Split(tail, sep);
      JoinSplit(tail, sep);
      JoinCons([s[0]], rest[0], rest[1..], sep);
      assert [rest[0]] + rest[1..] == rest;
      assert Split(s, sep) == [[s[0]] + rest[0]] + rest[1..];
      assert Join(Split(s, sep), sep) == [s[0]] + tail;
      assert s == [s[0]] + tail;
    }
  }

  /** The first piece of a split is a prefix of the string. */
  lemma {:induction false} SplitHeadIsPrefix(s: string, sep: string)
    requires sep != []
    ensures StartsWith(s, Split(s, sep)[0])
    decreases |s|
  {
    if s == [] {
    } else if StartsWith(s, sep) {
    } else {
      SplitHeadIsPrefix(s[1..], sep);
      var head := Split(s[1..], sep)[0];
      assert Split(s, sep)[0] == [s[0]] + head;
      assert s[1..][..|head|] == head;
      assert s[..|head| + 1] == [s[0]] + s[1..][..|head|];
    }
  }

  /** No piece of a split contains the separator. */
  lemma {:induction false} SplitPiecesFree(s: string, sep: string)
    requires sep != []
    ensures forall k :: 0 <= k < |Split(s, sep)| ==> Free(Split(s, sep)[k], sep)
    decreases |s|
  {
    var parts := Split(s, sep);
    if s == [] {
      forall i: nat | i <= |parts[0]| ensures !OccursAt(parts[0], sep, i) { }
    } else if StartsWith(s, sep) {
      SplitPiecesFree(s[|sep|..], sep);
      var rest := Split(s[|sep|..], sep);
      forall k | 0 <= k < |parts| ensures Free(parts[k], sep) {
        if k == 0 {
          forall i: nat | i <= |parts[0]| ensures !OccursAt(parts[0], sep, i) { }
        } else {
          assert parts[k] == rest[k - 1];
        }
      }
    } else {
      var rest := Split(s[1..], sep);
      SplitPiecesFree(s[1..], sep);
      SplitHeadIsPrefix(s[1..], sep);
      var head := [s[0]] + rest[0];
      forall i: nat | i <= |head| ensures !OccursAt(head, sep, i) {
        if i == 0 {
          assert head == s[..|head|];
          if |sep| <= |head| {
            assert head[..|sep|] == s[..|sep|];
          }
        } else {
          assert !OccursAt(rest[0], sep, i - 1);
          if i + |sep| <= |head| {
            assert head[i..i + |sep|] == rest[0][i - 1..i - 1 + |sep|];
          }
        }
      }
      forall k | 0 <= k < |parts| ensures Free(parts[k], sep) {
        if k > 0 {
          assert parts[k] == rest[k];
        }
      }
    }
  }

  /** A split has one more piece than the separator has occurrences. */
  lemma {:induction false} SplitCount(s: string, sep: string)
    requires sep != []
    ensures |Split(s, sep)| == Occurrences(s, sep) + 1
    decreases |s|
  {
    if s == [] {
    } else if StartsWith(s, sep) {
      SplitCount(s[|sep|..], sep);
    } else {
      SplitCount(s[1..], sep);
    }
  }

  /** Splitting on one character gives one piece more than that character's count. */
  lemma {:induction false} SplitCountChar(s: string, c: char)
    ensures |Split(s, [c])| == Count(s, c) + 1
    decreases |s|
  {
    if s == [] {
    } else if StartsWith(s, [c]) {
      assert s[0] == c;
      SplitCountChar(s[1..], c);
    } else {
      assert s[0] != c;
      SplitCountChar(s[1..], c);
    }
  }

  /**
   * A prefix in which the separator cannot start is glued onto the first
   * piece and changes nothing else.
   */
  lemma {:induction false} SplitAfterPrefix(p: string, y: string, sep: string)
    requires sep != []
    requires forall k :: 0 <= k < |p| ==> p[k] != sep[0]
    ensures Split(p + y, sep) == [p + Split(y, sep)[0]] + Split(y, sep)[1..]
    decreases |p|
  {
    var tail := Split(y, sep);
    if p == [] {
      assert p + y == y;
      assert p + tail[0] == tail[0];
      assert [tail[0]] + tail[1..] == tail;
    } else {
      assert (p + y)[0] == p[0];
      assert !StartsWith(p + y, sep);
      assert (p + y)[1..] == p[1..] + y;
      SplitAfterPrefix(p[1..], y, sep);
      assert [p[0]] + (p[1..] + tail[0]) == p + tail[0];
    }
  }

  /**
   * The cut is made at the leftmost occurrence: with `i` the least position
   * where `sep` occurs, the first piece is `s[..i]` and the rest is the split
   * of what follows that occurrence.
   */
  lemma {:induction false} SplitFirstPiece(s: string, sep: string, i: nat)
    requires sep != []
    requires OccursAt(s, sep, i)
    requires forall j: nat | j < i :: !OccursAt(s, sep, j)
    ensures |Split(s, sep)| >= 2
    ensures Split(s, sep)[0] == s[..i]
    ensures Split(s, sep)[1..] == Split(s[i + |sep|..], sep)
    decreases i
  {
    assert s != [];
    if i == 0 {
      assert StartsWith(s, sep);
    } else {
      assert !OccursAt(s, sep, 0);
      var t := s[1..];
      assert OccursAt(t, sep, i - 1) by {
        assert t[i - 1..i - 1 + |sep|] == s[i..i + |sep|];
      }
      forall j: nat | j < i - 1 ensures !OccursAt(t, sep, j) {
        assert !OccursAt(s, sep, j + 1);
        if j + |sep| <= |t| {
          assert t[j..j + |sep|] == s[j + 1..j + 1 + |sep|];
        }
      }
      SplitFirstPiece(t, sep, i - 1);
      SplitStep(s, sep);
      var rest := Split(t, sep);
      assert Split(s, sep)[0] == [s[0]] + t[..i - 1] == s[..i];
      assert t[i - 1 + |sep|..] == s[i + |sep|..];
      assert Split(s, sep)[1..] == rest[1..];
    }
  }

  /** Text without the separator is split into one piece, itself. */
  lemma {:induction false} SplitFree(s: string, sep: string)
    requires sep != []
    requires Free(s, sep)
    ensures Split(s, sep) == [s]
    decreases |s|
  {
    if s != [] {
      assert !OccursAt(s, sep, 0);
      var t := s[1..];
      forall j: nat | j <= |t| ensures !OccursAt(t, sep, j) {
        assert !OccursAt(s, sep, j + 1);
        if j + |sep| <= |t| {
          assert t[j..j + |sep|] == s[j + 1..j + 1 + |sep|];
        }
      }
      SplitFree(t, sep);
      assert s == [s[0]] + t;
    }
  }

  /** A separator that overlaps itself is cut at its leftmost occurrence: "aaa" on "aa" gives "" and "a". */
  lemma SplitOverlapping()
    ensures Split("aaa", "aa") == ["", "a"]
  {
    SplitFirstPiece("aaa", "aa", 0);
    assert "aaa"[2..] == "a";
    SplitFree("a", "aa");
  }

  /** `SplitAfterPrefix` piece by piece. */
  lemma {:induction false} SplitAfterPrefixPieces(p: string, y: string, sep: string)
    requires sep != []
    requires forall k :: 0 <= k < |p| ==> p[k] != sep[0]
    ensures |Split(p + y, sep)| == |Split(y, sep)|
    ensures Split(p + y, sep)[0] == p + Split(y, sep)[0]
    ensures forall k :: 1 <= k < |Split(y, sep)| ==> Split(p + y, sep)[k] == Split(y, sep)[k]
  {
    SplitAfterPrefix(p, y, sep);
    var ys := Split(y, sep);
    forall k | 1 <= k < |ys| ensures Split(p + y, sep)[k] == ys[k] {
      assert Split(p + y, sep)[k] == ys[1..][k - 1];
    }
  }

  /** Joining pieces that do not contain the separator character and splitting again gives the pieces back. */
  lemma {:induction false} SplitJoinChar(parts: seq<string>, c: char)
    requires |parts| >= 1
    requires forall k :: 0 <= k < |parts| ==> c !in parts[k]
    ensures Split(Join(parts, [c]), [c]) == parts
    decreases |parts|
  {
    var head := parts[0];
    assert forall k :: 0 <= k < |head| ==> head[k] != [c][0];
    if |parts| == 1 {
      SplitAfterPrefix(head, [], [c]);
      assert head + [] == head;
    } else {
      var tail := Join(parts[1..], [c]);
      SplitJoinChar(parts[1..], c);
      assert Join(parts, [c]) == head + ([c] + tail);
      SplitAfterPrefix(head, [c] + tail, [c]);
      assert StartsWith([c] + tail, [c]);
      assert ([c] + tail)[1..] == tail;
      assert Split([c] + tail, [c]) == [[]] + parts[1..];
      assert head + [] == head;
    }
  }

  // ---------------------------------------------------------------------
  // character-wise rewriting

  lemma {:induction false} MapCharsAppend(h: char -> string, a: string, b: string)
    ensures MapChars(h, a + b) == MapChars(h, a) + MapChars(h, b)
    decreases |a|
  {
    if a == [] {
      assert a + b == b;
    } else {
      assert (a + b)[0] == a[0];
      assert (a + b)[1..] == a[1..] + b;
      MapCharsAppend(h, a[1..], b);
    }
  }

  lemma {:induction false} MapCharsFixed(h: char -> string, w: string)
    requires forall k :: 0 <= k < |w| ==> h(w[k]) == [w[k]]
    ensures MapChars(h, w) == w
    decreases |w|
  {
    if w != [] {
      MapCharsFixed(h, w[1..]);
    }
  }

  /** If the rewritten text starts with characters of `sep`, so did the original. */
  lemma {:induction false} StartsWithReflected(h: char -> string, u: string, w: string, sep: string)
    requires Transparent(h, sep)
    requires forall k :: 0 <= k < |w| ==> w[k] in sep
    requires StartsWith(MapChars(h, u), w)
    ensures StartsWith(u, w)
    decreases |w|
  {
    if w != [] {
      var m := MapChars(h, u);
      assert u != [];
      var first := h(u[0]);
      var rest := MapChars(h, u[1..]);
      assert m == first + rest;
      assert first != [];
      assert m[0] == first[0] == w[0];
      assert w[0] in sep;
      assert first[0] in first;
      assert first == [u[0]];
      assert rest[..|w| - 1] == m[1..|w|] == w[1..];
      StartsWithReflected(h, u[1..], w[1..], sep);
      assert u[..|w|] == [u[0]] + u[1..][..|w| - 1];
    }
  }

  lemma {:induction false} MapCharsCons(h: char -> string, c: char, x: string)
    ensures MapChars(h, [c] + x) == h(c) + MapChars(h, x)
  {
    assert ([c] + x)[0] == c;
    assert ([c] + x)[1..] == x;
  }

  /** The pieces of the rewritten text are the rewritten pieces. */
  ghost predicate SplitsAlike(h: char -> string, s: string, sep: string)
    requires sep != []
  {
    && |Split(MapChars(h, s), sep)| == |Split(s, sep)|
    && forall k :: 0 <= k < |Split(s, sep)| ==> Split(MapChars(h, s), sep)[k] == MapChars(h, Split(s, sep)[k])
  }

  /** A transparent rewriting leaves the separator itself unchanged. */
  lemma {:induction false} TransparentKeepsSeparator(h: char -> string, sep: string)
    requires Transparent(h, sep)
    ensures MapChars(h, sep) == sep
  {
    assert forall k :: 0 <= k < |sep| ==> sep[k] in sep;
    MapCharsFixed(h, sep);
  }

  /** What a transparent rewriting puts in place of a character cannot begin the separator. */
  lemma {:induction false} TransparentReplacement(h: char -> string, c: char, sep: string)
    requires sep != [] && Transparent(h, sep) && h(c) != [c]
    ensures forall k :: 0 <= k < |h(c)| ==> h(c)[k] != sep[0]
  {
    var p := h(c);
    forall k | 0 <= k < |p| ensures p[k] != sep[0] {
      assert p[k] in p;
      assert sep[0] in sep;
    }
  }

  /** A kept first character does not let the separator start where it did not. */
  lemma {:induction false} TransparentKeptHead(h: char -> string, c: char, x: string, sep: string)
    requires sep != [] && Transparent(h, sep) && h(c) == [c]
    requires !StartsWith([c] + x, sep)
    ensures !StartsWith([c] + MapChars(h, x), sep)
  {
    if StartsWith([c] + MapChars(h, x), sep) {
      assert StartsWith(MapChars(h, x), sep[1..]);
      forall k | 0 <= k < |sep[1..]| ensures sep[1..][k] in sep {
        assert sep[1..][k] == sep[k + 1];
      }
      StartsWithReflected(h, x, sep[1..], sep);
      assert false;
    }
  }

  /** Rewriting text that starts with a fixed separator keeps it in front. */
  lemma {:induction false} MapCharsAfterSeparator(h: char -> string, s: string, sep: string)
    requires StartsWith(s, sep) && MapChars(h, sep) == sep
    ensures StartsWith(MapChars(h, s), sep)
    ensures MapChars(h, s)[|sep|..] == MapChars(h, s[|sep|..])
  {
    assert s == sep + s[|sep|..];
    MapCharsAppend(h, sep, s[|sep|..]);
  }

  lemma {:induction false} SplitsAlikeAtSeparator(h: char -> string, s: string, sep: string)
    requires sep != [] && MapChars(h, sep) == sep
    requires StartsWith(s, sep) && SplitsAlike(h, s[|sep|..], sep)
    ensures SplitsAlike(h, s, sep)
  {
    var s' := s[|sep|..];
    var m := MapChars(h, s);
    MapCharsAfterSeparator(h, s, sep);
    var rest := Split(s', sep);
    var mrest := Split(MapChars(h, s'), sep);
    var parts := Split(s, sep);
    var mparts := Split(m, sep);
    assert |parts| == |rest| + 1 && |mparts| == |mrest| + 1;
    forall k | 0 <= k < |parts| ensures mparts[k] == MapChars(h, parts[k]) {
      if k == 0 {
        assert parts[0] == [] && mparts[0] == [];
      } else {
        assert parts[k] == rest[k - 1];
        assert mparts[k] == mrest[k - 1];
      }
    }
  }

  /** Where the separator does not start, the first character joins the first piece. */
  lemma {:induction false} SplitStep(s: string, sep: string)
    requires sep != [] && s != [] && !StartsWith(s, sep)
    ensures |Split(s, sep)| == |Split(s[1..], sep)|
    ensures Split(s, sep)[0] == [s[0]] + Split(s[1..], sep)[0]
    ensures forall k :: 1 <= k < |Split(s, sep)| ==> Split(s, sep)[k] == Split(s[1..], sep)[k]
  {
    var rest := Split(s[1..], sep);
    var tail := rest[1..];
    var parts := Split(s, sep);
    forall k | 1 <= k < |parts| ensures parts[k] == rest[k] {
      assert parts[k] == tail[k - 1];
    }
  }

  lemma {:induction false} SplitsAlikeKept(h: char -> string, s: string, sep: string)
    requires sep != []
    requires s != [] && !StartsWith(s, sep) && h(s[0]) == [s[0]]
    requires !StartsWith(MapChars(h, s), sep)
    requires SplitsAlike(h, s[1..], sep)
    ensures SplitsAlike(h, s, sep)
  {
    var m := MapChars(h, s);
    var rest := Split(s[1..], sep);
    var mrest := Split(MapChars(h, s[1..]), sep);
    assert m[0] == s[0];
    assert m[1..] == MapChars(h, s[1..]);
    SplitStep(s, sep);
    SplitStep(m, sep);
    var parts := Split(s, sep);
    var mparts := Split(m, sep);
    forall k | 0 <= k < |parts| ensures mparts[k] == MapChars(h, parts[k]) {
      if k == 0 {
        MapCharsCons(h, s[0], rest[0]);
      } else {
        assert parts[k] == rest[k];
        assert mparts[k] == mrest[k];
      }
    }
  }

  lemma {:induction false} SplitsAlikeReplaced(h: char -> string, s: string, sep: string)
    requires sep != []
    requires s != [] && !StartsWith(s, sep)
    requires forall k :: 0 <= k < |h(s[0])| ==> h(s[0])[k] != sep[0]
    requires SplitsAlike(h, s[1..], sep)
    ensures SplitsAlike(h, s, sep)
  {
    var rest := Split(s[1..], sep);
    var mrest := Split(MapChars(h, s[1..]), sep);
    var p := h(s[0]);
    var m := MapChars(h, s);
    assert m == p + MapChars(h, s[1..]);
    SplitAfterPrefixPieces(p, MapChars(h, s[1..]), sep);
    SplitStep(s, sep);
    var parts := Split(s, sep);
    var mparts := Split(m, sep);
    forall k | 0 <= k < |parts| ensures mparts[k] == MapChars(h, parts[k]) {
      if k == 0 {
        MapCharsCons(h, s[0], rest[0]);
      } else {
        assert parts[k] == rest[k];
        assert mparts[k] == mrest[k];
      }
    }
  }

  /**
   * Splitting commutes with a rewriting that is transparent for the
   * separator: the pieces of the rewritten text are the rewritten pieces.
   */
  lemma {:induction false} SplitMapChars(h: char -> string, s: string, sep: string)
    requires sep != []
    requires Transparent(h, sep)
    ensures |Split(MapChars(h, s), sep)| == |Split(s, sep)|
    ensures forall k :: 0 <= k < |Split(s, sep)| ==>
              Split(MapChars(h, s), sep)[k] == MapChars(h, Split(s, sep)[k])
    decreases |s|
  {
    if s == [] {
    } else if StartsWith(s, sep) {
      SplitMapChars(h, s[|sep|..], sep);
      TransparentKeepsSeparator(h, sep);
      SplitsAlikeAtSeparator(h, s, sep);
    } else if h(s[0]) == [s[0]] {
      SplitMapChars(h, s[1..], sep);
      assert s == [s[0]] + s[1..];
      TransparentKeptHead(h, s[0], s[1..], sep);
      SplitsAlikeKept(h, s, sep);
    } else {
      SplitMapChars(h, s[1..], sep);
      TransparentReplacement(h, s[0], sep);
      SplitsAlikeReplaced(h, s, sep);
    }
  }
}
