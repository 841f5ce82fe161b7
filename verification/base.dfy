/** Option type used for nullable columns (`nil` in the source). */
module Wrappers {
  datatype Option<+T> = None | Some(value: T)
}

/** Order-preserving filtering and single-row removal over tables held as sequences. */
module Seqs {

  /** The rows of `s` that satisfy `keep`, in their original order (a `WHERE` clause). */
  function Filter<T(==,!new)>(keep: T -> bool, s: seq<T>): (r: seq<T>)
    ensures |r| <= |s|
    ensures forall x :: x in r <==> x in s && keep(x)
    decreases |s|
  {
    if s == [] then []
    else
      var init, last := s[..|s| - 1], s[|s| - 1];
      assert s == init + [last];
      Filter(keep, init) + (if keep(last) then [last] else [])
  }

  /** Filtering keeps every copy of a row it keeps. */
  lemma {:induction false} FilterCount<T(!new)>(keep: T -> bool, s: seq<T>)
    ensures forall x :: multiset(Filter(keep, s))[x] == if keep(x) then multiset(s)[x] else 0
    decreases |s|
  {
    if s != [] {
      var init, last := s[..|s| - 1], s[|s| - 1];
      assert s == init + [last];
      FilterCount(keep, init);
    }
  }

  /** Filtering the appended row on its own extends the filtered prefix. */
  lemma FilterSnoc<T(!new)>(keep: T -> bool, s: seq<T>, x: T)
    ensures Filter(keep, s + [x]) == Filter(keep, s) + (if keep(x) then [x] else [])
  {
    assert (s + [x])[..|s + [x]| - 1] == s;
  }

  /** `s` without its first occurrence of `x`; `s` itself when `x` does not occur. */
  function RemoveFirst<T(==)>(s: seq<T>, x: T): (r: seq<T>)
    ensures x !in s ==> r == s
    ensures x in s ==> |r| == |s| - 1
  {
    if s == [] then []
    else
      assert s == [s[0]] + s[1..];
      if s[0] == x then s[1..] else [s[0]] + RemoveFirst(s[1..], x)
  }

  /** Exactly one copy of `x` goes, when there is one, and nothing else. */
  lemma {:induction false} RemoveFirstCount<T>(s: seq<T>, x: T)
    ensures multiset(RemoveFirst(s, x)) == multiset(s) - multiset{x}
  {
    if s != [] {
      assert s == [s[0]] + s[1..];
      RemoveFirstCount(s[1..], x);
    }
  }

  /** Removing the first occurrence is cutting out the first index that holds it. */
  lemma {:induction false} RemoveFirstAt<T>(s: seq<T>, x: T, i: nat)
    requires i < |s| && s[i] == x && x !in s[..i]
    ensures RemoveFirst(s, x) == s[..i] + s[i + 1..]
  {
    if i > 0 {
      var t := s[1..];
      assert s[0] == s[..i][0];
      assert s[0] != x;
      assert t[..i - 1] == s[1..i];
      assert t[i..] == s[i + 1..];
      assert s[..i] == [s[0]] + s[1..i];
      assert x !in s[1..i] by {
        forall k | 0 <= k < i - 1
          ensures s[1..i][k] != x
        {
          assert s[1..i][k] == s[..i][k + 1];
        }
      }
      RemoveFirstAt(t, x, i - 1);
      assert RemoveFirst(s, x) == [s[0]] + RemoveFirst(t, x);
    }
  }

  /** Removing `x` from a table it was appended to, when it was absent before,
      gives back the table (follow then unfollow). */
  lemma {:induction false} RemoveFirstOfAppended<T>(s: seq<T>, x: T)
    requires x !in s
    ensures RemoveFirst(s + [x], x) == s
  {
    if s != [] {
      assert (s + [x])[1..] == s[1..] + [x];
      RemoveFirstOfAppended(s[1..], x);
    }
  }
}

/** Character classes and string predicates of Ruby 1.9 and Rails 3.2. */
module Text {
  import opened Wrappers

  /** Ruby 1.9's `\s`: space, tab, carriage return, line feed, form feed. */
  predicate IsSpace(c: char) {
    c == ' ' || c == '\t' || c == '\r' || c == '\n' || c == '\U{C}'
  }

  /** `[[:space:]]` on a Unicode string, the characters that Rails 3.2's
      `String#blank?` ignores under Ruby 1.9: the Unicode White_Space
      characters (U+180E included, as in the Unicode 6.0 tables). */
  predicate IsBlankChar(c: char) {
    || '\t' <= c <= '\r' || c == ' ' || c == '\U{85}' || c == '\U{A0}'
    || c == '\U{1680}' || c == '\U{180E}' || '\U{2000}' <= c <= '\U{200A}'
    || c == '\U{2028}' || c == '\U{2029}' || c == '\U{202F}' || c == '\U{205F}'
    || c == '\U{3000}'
  }

  /** Rails presence: a string is blank when it has no non-blank character. */
  predicate IsBlank(s: string) {
    forall i :: 0 <= i < |s| ==> IsBlankChar(s[i])
  }

  predicate IsUpper(c: char) { 'A' <= c <= 'Z' }
  predicate IsLower(c: char) { 'a' <= c <= 'z' }
  predicate IsLetter(c: char) { IsUpper(c) || IsLower(c) }
  predicate IsDigit(c: char) { '0' <= c <= '9' }

  /** SQL `LOWER` on one character (ASCII only). */
  function LowerChar(c: char): (r: char)
    ensures IsUpper(c) ==> IsLower(r) && r as int == c as int + 32
    ensures !IsUpper(c) ==> r == c
  {
    if IsUpper(c) then (c as int + 32) as char else c
  }

  /** SQL `LOWER` on a string, the key of a case-insensitive comparison. */
  function Lower(s: string): (r: string)
    ensures |r| == |s|
    ensures forall i :: 0 <= i < |s| ==> r[i] == LowerChar(s[i])
  {
    seq(|s|, i requires 0 <= i < |s| => LowerChar(s[i]))
  }

  /** The first position of `c` in `s`. */
  function FirstIndex(s: string, c: char): (r: Option<nat>)
    ensures r.None? ==> forall k :: 0 <= k < |s| ==> s[k] != c
    ensures r.Some? ==> r.value < |s| && s[r.value] == c && forall k :: 0 <= k < r.value ==> s[k] != c
  {
    if s == [] then None
    else if s[0] == c then Some(0)
    else match FirstIndex(s[1..], c)
      case None => None
      case Some(i) => Some(i + 1)
  }

  /** The last position of `c` in `s`. */
  function LastIndex(s: string, c: char): (r: Option<nat>)
    ensures r.None? ==> forall k :: 0 <= k < |s| ==> s[k] != c
    ensures r.Some? ==> r.value < |s| && s[r.value] == c && forall k :: r.value < k < |s| ==> s[k] != c
  {
    if s == [] then None
    else if s[|s| - 1] == c then Some(|s| - 1)
    else LastIndex(s[..|s| - 1], c)
  }

  /** Where Ruby's multi-line anchor `^` matches: the start of the string or just
      after a line feed. */
  ghost predicate LineStart(s: string, p: int) {
    0 <= p <= |s| && (p == 0 || s[p - 1] == '\n')
  }

  /** Where Ruby's `$` matches: the end of the string or just before a line feed. */
  ghost predicate LineEndAt(s: string, e: int) {
    0 <= e <= |s| && (e == |s| || s[e] == '\n')
  }

  /** The end of the line that contains position `i`. */
  function LineEnd(s: string, i: nat): (e: nat)
    requires i <= |s|
    ensures i <= e <= |s| && LineEndAt(s, e)
    ensures forall k :: i <= k < e ==> s[k] != '\n'
    decreases |s| - i
  {
    if i == |s| || s[i] == '\n' then i else LineEnd(s, i + 1)
  }

  /** Between a line start `p` and the end `e` of its line there is no other
      line start. */
  lemma NoLineStartInside(s: string, p: nat, e: nat, q: int)
    requires p <= e <= |s| && forall k :: p <= k < e ==> s[k] != '\n'
    requires p < q <= e
    ensures !LineStart(s, q)
  {
    assert s[q - 1] != '\n';
  }
}

/** The rows of the `users`, `microposts` and `relationships` tables. */
module Schema {
  import opened Wrappers

  /** A row of `users`. `password` is the virtual attribute that is validated
      before hashing; the stored digest is not modelled. */
  datatype User = User(id: int, name: string, email: string, username: string, password: string)

  /** A row of `microposts`. `userId` and `inReplyToUserId` may be NULL; the
      `direct_message` column is NULL or false unless set, read here as false. */
  datatype Micropost = Micropost(
    id: int,
    userId: Option<int>,
    content: string,
    inReplyToUserId: Option<int>,
    directMessage: bool,
    createdAt: int)

  /** A row of `relationships`: a directed follow edge. */
  datatype Relationship = Relationship(followerId: int, followedId: int)
}
