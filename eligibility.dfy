/** Whether a run goes on past the pull-request read: description present, author allowed. */
module Eligibility {
  import opened Hosting

  /** Python's `s.split(",")`: the comma-free pieces of `s`, in order, empty pieces kept. */
  function Split(s: string): (pieces: seq<string>)
    ensures |pieces| >= 1
    ensures forall i :: 0 <= i < |pieces| ==> ',' !in pieces[i]
    decreases |s|
  {
    if s == [] then [[]]
    else
      var rest := Split(s[1..]);
      if s[0] == ',' then [[]] + rest
      else [[s[0]] + rest[0]] + rest[1..]
  }

  /** `",".join(pieces)`, the inverse of Split. */
  function Join(pieces: seq<string>): (joined: string)
    requires |pieces| >= 1
  {
    if |pieces| == 1 then pieces[0] else pieces[0] + "," + Join(pieces[1..])
  }

  /** Joining the pieces of a split gives back the original string. */
  lemma {:induction false} JoinSplit(s: string)
    ensures Join(Split(s)) == s
    decreases |s|
  {
    if s != [] {
      var rest := Split(s[1..]);
      JoinSplit(s[1..]);
      if s[0] == ',' {
        assert ([[]] + rest)[1..] == rest;
      } else if |rest| > 1 {
        assert ([[s[0]] + rest[0]] + rest[1..])[1..] == rest[1..];
        assert Join(rest) == rest[0] + "," + Join(rest[1..]);
      }
    }
  }

  /** Splitting a comma-free head followed by `tail` glues the head onto the first piece of `tail`. */
  lemma {:induction false} SplitPrepend(head: string, tail: string)
    requires ',' !in head
    ensures Split(head + tail) == [head + Split(tail)[0]] + Split(tail)[1..]
    decreases |head|
  {
    if head != [] {
      var st := Split(tail);
      assert (head + tail)[0] == head[0];
      assert (head + tail)[1..] == head[1..] + tail;
      SplitPrepend(head[1..], tail);
      var rest := Split(head[1..] + tail);
      assert rest[0] == head[1..] + st[0] && rest[1..] == st[1..];
      assert Split(head + tail) == [[head[0]] + rest[0]] + rest[1..];
      assert head == [head[0]] + head[1..];
      assert [head[0]] + rest[0] == head + st[0];
    } else {
      var st := Split(tail);
      assert head + tail == tail && head + st[0] == st[0];
      assert [st[0]] + st[1..] == st;
    }
  }

  /** Splitting a join of comma-free names gives back exactly those names. */
  lemma {:induction false} SplitJoin(pieces: seq<string>)
    requires |pieces| >= 1
    requires forall i :: 0 <= i < |pieces| ==> ',' !in pieces[i]
    ensures Split(Join(pieces)) == pieces
    decreases |pieces|
  {
    if |pieces| == 1 {
      SplitPrepend(pieces[0], []);
      assert pieces[0] + [] == pieces[0];
    } else {
      var tail := "," + Join(pieces[1..]);
      SplitJoin(pieces[1..]);
      assert tail[1..] == Join(pieces[1..]);
      assert Split(tail) == [[]] + pieces[1..];
      assert Join(pieces) == pieces[0] + tail;
      SplitPrepend(pieces[0], tail);
      assert pieces[0] + Split(tail)[0] == pieces[0];
      assert [pieces[0]] + pieces[1..] == pieces;
    }
  }

  /** The allow-list test: an empty list accepts everyone, otherwise exact membership among the split pieces. */
  predicate AuthorAllowed(allowedUsers: string, author: string) {
    allowedUsers == [] || author in Split(allowedUsers)
  }

  /**
   * For a non-empty allow-list written as comma-separated names, an author is
   * accepted exactly when it is one of those names, character for character.
   */
  lemma AllowListMembership(names: seq<string>, author: string)
    requires |names| >= 1
    requires forall i :: 0 <= i < |names| ==> ',' !in names[i]
    requires Join(names) != []
    ensures AuthorAllowed(Join(names), author) <==> author in names
  {
    SplitJoin(names);
  }

  /** Names are not trimmed: in "alice, bob" the second name is " bob", so "bob" is rejected. */
  lemma NoWhitespaceTrimming()
    ensures AuthorAllowed("alice, bob", " bob")
    ensures !AuthorAllowed("alice, bob", "bob")
  {
    var names := ["alice", " bob"];
    assert Join(names) == "alice, bob";
    SplitJoin(names);
  }

  /** An author whose name contains a comma can never match a non-empty allow-list. */
  lemma CommaNameRejected(allowedUsers: string, author: string)
    requires allowedUsers != [] && ',' in author
    ensures !AuthorAllowed(allowedUsers, author)
  {
  }

  datatype Decision = Proceed | AlreadyDescribed | AuthorRejected

  /** The two early stops after a successful pull-request read, in the script's order. */
  function Decide(pr: PullRequest, allowedUsers: string): (d: Decision)
    ensures d == AlreadyDescribed <==> HasDescription(pr)
    ensures d == AuthorRejected <==>
              !HasDescription(pr) && allowedUsers != [] && pr.author !in Split(allowedUsers)
    ensures d == Proceed <==> !HasDescription(pr) && AuthorAllowed(allowedUsers, pr.author)
  {
    if HasDescription(pr) then AlreadyDescribed
    else if !AuthorAllowed(allowedUsers, pr.author) then AuthorRejected
    else Proceed
  }
}
