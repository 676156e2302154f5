/** Shared vocabulary: optional values, error outcomes, the application's
    error codes and the string predicates the validators and queries use. */
module Common {

  datatype Option<+T> = None | Some(value: T) {
    function GetOr(default: T): T {
      match this
      case Some(v) => v
      case None => default
    }
  }

  /** The error codes thrown by the modelled operations. `IncorrectResultSize`
      stands for the exception a single-result repository query raises when
      more than one document matches. */
  datatype ErrorCode =
    | ProjectTryoutStatusUpdateFail
    | UserDuplicateByEmail
    | UserDuplicateByNickname
    | UserNotFoundByNickname
    | UserNotFoundByEmail
    | UserNotFoundById
    | IsDeletedUser
    | IncorrectResultSize

  /** A value or the error code of the exception thrown instead. */
  datatype Result<+T> = Ok(value: T) | Err(code: ErrorCode)

  /** Completion of an operation that returns nothing but may throw. */
  datatype Outcome = Pass | Fail(code: ErrorCode)

  /** `f` applied to every element, in order (a list `map`, or a projection stage). */
  function Map<A, B>(s: seq<A>, f: A -> B): (r: seq<B>)
    ensures |r| == |s| && forall i | 0 <= i < |r| :: r[i] == f(s[i])
  {
    if s == [] then [] else [f(s[0])] + Map(s[1..], f)
  }

  /** The image of an element is in the mapped sequence. */
  lemma MapContains<A, B>(s: seq<A>, f: A -> B, x: A)
    requires x in s
    ensures f(x) in Map(s, f)
  {
    var k :| 0 <= k < |s| && s[k] == x;
    assert Map(s, f)[k] == f(x);
  }

  /** Mapping with `f` and then with a left inverse of `f` gives the
      sequence back. */
  lemma {:induction false} MapInverse<A, B>(s: seq<A>, f: A -> B, g: B -> A)
    requires forall x :: g(f(x)) == x
    ensures Map(Map(s, f), g) == s
    decreases |s|
  {
    if s != [] {
      MapInverse(s[1..], f, g);
      assert Map(s, f)[1..] == Map(s[1..], f);
    }
  }

  /** `sub` occurs in `s` starting at position `i`. */
  predicate OccursAt(s: string, sub: string, i: int) {
    0 <= i && i + |sub| <= |s| && s[i..i + |sub|] == sub
  }

  /** `sub` occurs somewhere in `s` (case-sensitive). */
  predicate Contains(s: string, sub: string): (b: bool)
    ensures b <==> exists i :: OccursAt(s, sub, i)
    decreases |s|
  {
    if sub <= s then
      assert OccursAt(s, sub, 0);
      true
    else if |s| == 0 then false
    else
      assert forall i :: OccursAt(s, sub, i) <==> i > 0 && OccursAt(s[1..], sub, i - 1) by {
        forall i ensures OccursAt(s, sub, i) <==> i > 0 && OccursAt(s[1..], sub, i - 1) {
          if i > 0 && i + |sub| <= |s| {
            var a, b := s[i..i + |sub|], s[1..][i - 1..i - 1 + |sub|];
            assert |a| == |b| && forall k | 0 <= k < |a| :: a[k] == s[i + k] == b[k];
            assert a == b;
          }
        }
      }
      var b := Contains(s[1..], sub);
      assert b ==> exists i :: OccursAt(s, sub, i) by {
        if b {
          var j :| OccursAt(s[1..], sub, j);
          assert OccursAt(s, sub, j + 1);
        }
      }
      b
  }

  /** `s` without its leading characters at or below U+0020. */
  function TrimStart(s: string): (r: string)
    ensures r == [] <==> forall i | 0 <= i < |s| :: s[i] <= ' '
    ensures r != [] ==> r[0] > ' '
    decreases |s|
  {
    if s == [] || s[0] > ' ' then s
    else
      assert forall i | 1 <= i < |s| :: s[i] == s[1..][i - 1];
      TrimStart(s[1..])
  }

  /** `s` without its trailing characters at or below U+0020. */
  function TrimEnd(s: string): (r: string)
    ensures r == [] <==> forall i | 0 <= i < |s| :: s[i] <= ' '
    decreases |s|
  {
    if s == [] || s[|s| - 1] > ' ' then s
    else
      assert forall i | 0 <= i < |s| - 1 :: s[i] == s[..|s| - 1][i];
      TrimEnd(s[..|s| - 1])
  }

  /** Bean Validation's "not blank": Java's `trim`, which strips every
      character at or below U+0020 from both ends, leaves something; that
      is, some character is above U+0020. */
  predicate NotBlank(s: string): (b: bool)
    ensures b <==> exists i | 0 <= i < |s| :: s[i] > ' '
  {
    |TrimEnd(TrimStart(s))| > 0
  }

  /** The length Java reports for a string: UTF-16 code units, so a character
      outside the Basic Multilingual Plane counts twice. */
  function Utf16Length(s: string): (n: nat)
    ensures |s| <= n <= 2 * |s|
    ensures (forall i | 0 <= i < |s| :: s[i] < 0x1_0000 as char) ==> n == |s|
  {
    if s == [] then 0
    else (if s[0] < 0x1_0000 as char then 1 else 2) + Utf16Length(s[1..])
  }
}
