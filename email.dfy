/**
 * The email validator: a string is accepted exactly when the whole of it
 * matches the pattern `[^@]+ @ [^@]+ \. [^@]+` (one or more characters other
 * than `@`, an `@`, one or more non-`@` characters, a literal dot, one or more
 * non-`@` characters). The pattern is anchored at both ends. Python's `$`
 * also matches just before a final newline, but a newline is itself a
 * non-`@` character, so that changes nothing in the set of accepted strings.
 */
module Email {
  import opened Wrappers

  /** The string contains no `@`. */
  ghost predicate NoAt(s: string)
  {
    forall k | 0 <= k < |s| :: s[k] != '@'
  }

  /**
   * The pattern matches `s` with the `@` at index `i` and the separating dot
   * at index `j`: each of the three runs is non-empty and free of `@`.
   */
  ghost predicate Segments(s: string, i: int, j: int)
  {
    0 < i && i + 1 < j && j + 1 < |s| &&
    s[i] == '@' && s[j] == '.' &&
    NoAt(s[..i]) && NoAt(s[i + 1..j]) && NoAt(s[j + 1..])
  }

  /** The declarative reading of the anchored pattern. */
  ghost predicate MatchesPattern(s: string)
  {
    exists i, j :: Segments(s, i, j)
  }

  /** The position of the first `@` in `s`, if any. */
  function FindAt(s: string): (r: Option<nat>)
    ensures r.Some? ==> r.value < |s| && s[r.value] == '@' && NoAt(s[..r.value])
    ensures r.None? <==> NoAt(s)
  {
    if s == [] then None
    else if s[0] == '@' then Some(0)
    else match FindAt(s[1..])
      case None => None
      case Some(i) =>
        assert s[..i + 1] == [s[0]] + s[1..][..i];
        Some(i + 1)
  }

  /** The position of the first dot at index `k` or later that has a character after it. */
  function FindDotFrom(d: string, k: nat): (r: Option<nat>)
    ensures r.Some? ==> k <= r.value < |d| - 1 && d[r.value] == '.'
    ensures r.None? ==> forall j | k <= j < |d| - 1 :: d[j] != '.'
    decreases |d| - k
  {
    if k + 1 >= |d| then None
    else if d[k] == '.' then Some(k)
    else FindDotFrom(d, k + 1)
  }

  /**
   * The hand-rolled matcher: find the first `@`; it must not be the first
   * character, the rest must hold no other `@`, and the rest must have a
   * dot with at least one character on either side of it.
   */
  function IsValidEmail(s: string): bool
  {
    match FindAt(s)
    case None => false
    case Some(i) =>
      var domain := s[i + 1..];
      0 < i && FindAt(domain).None? && FindDotFrom(domain, 1).Some?
  }

  /** Where the matcher accepts, the pattern matches with the first `@` and the dot it found. */
  lemma MatcherSound(s: string) returns (i: nat, j: nat)
    requires IsValidEmail(s)
    ensures Segments(s, i, j)
  {
    i := FindAt(s).value;
    var domain := s[i + 1..];
    var jd := FindDotFrom(domain, 1).value;
    j := i + 1 + jd;
    assert s[i + 1..j] == domain[..jd];
    assert s[j + 1..] == domain[jd + 1..];
  }

  /** Wherever the pattern matches, the matcher accepts. */
  lemma MatcherComplete(s: string, i: int, j: int)
    requires Segments(s, i, j)
    ensures IsValidEmail(s)
  {
    assert FindAt(s).Some? by {
      assert !NoAt(s);
    }
    assert FindAt(s).value == i;
    var domain := s[i + 1..];
    assert NoAt(domain) by {
      forall k | 0 <= k < |domain|
        ensures domain[k] != '@'
      {
        if i + 1 + k < j {
          assert domain[k] == s[i + 1..j][k];
        } else if i + 1 + k > j {
          assert domain[k] == s[j + 1..][i + 1 + k - j - 1];
        }
      }
    }
    assert domain[j - i - 1] == '.';
  }

  /** The matcher accepts exactly the strings the pattern matches. */
  lemma IsValidEmailCorrect(s: string)
    ensures IsValidEmail(s) <==> MatchesPattern(s)
  {
    if IsValidEmail(s) {
      var i, j := MatcherSound(s);
    }
    if MatchesPattern(s) {
      var i, j :| Segments(s, i, j);
      MatcherComplete(s, i, j);
    }
  }

  /** Any three non-empty `@`-free parts joined as `x@y.z` are accepted. */
  lemma AcceptsParts(x: string, y: string, z: string)
    requires |x| > 0 && |y| > 0 && |z| > 0
    requires NoAt(x) && NoAt(y) && NoAt(z)
    ensures IsValidEmail(x + "@" + y + "." + z)
  {
    var s := x + "@" + y + "." + z;
    var i, j := |x|, |x| + 1 + |y|;
    assert s[..i] == x;
    assert s[i + 1..j] == y;
    assert s[j + 1..] == z;
    assert Segments(s, i, j);
    IsValidEmailCorrect(s);
  }

  /** Every accepted string splits as `x@y.z` with non-empty `@`-free parts. */
  lemma PartsOfAccepted(s: string) returns (x: string, y: string, z: string)
    requires IsValidEmail(s)
    ensures s == x + "@" + y + "." + z
    ensures |x| > 0 && |y| > 0 && |z| > 0
    ensures NoAt(x) && NoAt(y) && NoAt(z)
  {
    IsValidEmailCorrect(s);
    var i, j :| Segments(s, i, j);
    x, y, z := s[..i], s[i + 1..j], s[j + 1..];
    assert s == s[..i] + [s[i]] + s[i + 1..j] + [s[j]] + s[j + 1..];
  }

  /** The boundary cases of the pattern, for any string equal to one of them. */
  lemma BoundaryCases(s: string)
    ensures s == "a@b.c" ==> IsValidEmail(s)
    ensures s == "" || s == "a.b.c" || s == "a@b" || s == "a@b@c.d" ==> !IsValidEmail(s)
  {
    if s == "a@b.c" {
      MatcherComplete(s, 1, 3);
    } else if s == "a.b.c" {
      assert NoAt(s);
    } else if s == "a@b" {
      assert FindAt(s) == Some(1);
    } else if s == "a@b@c.d" {
      assert FindAt(s) == Some(1);
      assert s[2..][1] == '@';
    }
  }
}
