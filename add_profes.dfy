/** The management command that adds the users listed by e-mail in a text
    file to the teachers' group. Lines are stripped and lower-cased, blank
    lines skipped, each address looked up ignoring case; addresses with no
    user are collected and reported after the loop. */
module AddProfes {
  import opened Common
  import opened Models

  /** `raw.strip().lower()`. */
  function Normalize(raw: string): string {
    Lower(Strip(raw))
  }

  /** Normalising twice is normalising once. */
  lemma NormalizeIdempotent(raw: string)
    ensures Normalize(Normalize(raw)) == Normalize(raw)
  {
    var t := Strip(raw);
    StripShape(raw);
    var l := Lower(t);
    if l != [] {
      LowerKeepsSpace(t[0]);
      LowerKeepsSpace(t[|t| - 1]);
    }
    StripNoop(l);
    LowerIdempotent(t);
  }

  /** Every line of the file in normal form, in order. */
  function Normalized(lines: seq<string>): (ns: seq<string>)
    ensures |ns| == |lines|
  {
    if lines == [] then [] else [Normalize(lines[0])] + Normalized(lines[1..])
  }

  /** Line `k` of the normalised file is line `k` of the file, normalised. */
  lemma {:induction false} NormalizedAt(lines: seq<string>, k: nat)
    requires k < |lines|
    ensures Normalized(lines)[k] == Normalize(lines[k])
  {
    if k > 0 {
      NormalizedAt(lines[1..], k - 1);
    }
  }

  /** The non-blank entries among the first `n` of `xs`, in order. */
  function NonBlankUpTo(xs: seq<string>, n: nat): (es: seq<string>)
    requires n <= |xs|
    ensures |es| <= n
  {
    if n == 0 then []
    else NonBlankUpTo(xs, n - 1) + (if xs[n - 1] == "" then [] else [xs[n - 1]])
  }

  /** The addresses the command works on: the non-blank normalised lines, in file order. */
  function Emails(lines: seq<string>): seq<string> {
    NonBlankUpTo(Normalized(lines), |lines|)
  }

  /** Each entry kept is one of the first `n` and is not blank. */
  lemma {:induction false} NonBlankUpToIn(xs: seq<string>, n: nat)
    requires n <= |xs|
    ensures forall e :: e in NonBlankUpTo(xs, n) ==> e != "" && e in xs[..n]
  {
    if n > 0 {
      NonBlankUpToIn(xs, n - 1);
      assert forall e :: e in xs[..n - 1] ==> e in xs[..n];
    }
  }

  /** Each address worked on is non-blank and already in normal form. */
  lemma EmailsNormalised(lines: seq<string>)
    ensures forall e :: e in Emails(lines) ==> e != "" && Normalize(e) == e
  {
    var ns := Normalized(lines);
    NonBlankUpToIn(ns, |lines|);
    assert ns[..|lines|] == ns;
    forall e | e in Emails(lines) ensures Normalize(e) == e {
      var k :| 0 <= k < |lines| && ns[k] == e;
      NormalizedAt(lines, k);
      NormalizeIdempotent(lines[k]);
    }
  }

  /** The ids of the users whose e-mail equals `key` once lower-cased. */
  function MatchingIds(users: seq<User>, key: string): (ids: seq<UserId>)
    ensures ids == [] <==> forall k :: 0 <= k < |users| ==> Lower(users[k].email) != key
  {
    if users == [] then []
    else (if Lower(users[0].email) == key then [users[0].id] else []) + MatchingIds(users[1..], key)
  }

  /** The three outcomes of `User.objects.get(email__iexact=email)`. */
  datatype Lookup = NoUser | OneUser(id: UserId) | ManyUsers

  function LookupEmail(users: seq<User>, email: string): Lookup
  {
    var ids := MatchingIds(users, Lower(email));
    if |ids| == 0 then NoUser
    else if |ids| == 1 then OneUser(ids[0])
    else ManyUsers
  }

  lemma {:induction false} MatchingIdsIn(users: seq<User>, key: string, j: nat)
    requires j < |MatchingIds(users, key)|
    ensures exists k :: 0 <= k < |users| && users[k].id == MatchingIds(users, key)[j] && Lower(users[k].email) == key
  {
    var head := if Lower(users[0].email) == key then [users[0].id] else [];
    if j < |head| {
      assert users[0].id == MatchingIds(users, key)[j];
    } else {
      MatchingIdsIn(users[1..], key, j - |head|);
      var k :| 0 <= k < |users[1..]| && users[1..][k].id == MatchingIds(users[1..], key)[j - |head|] && Lower(users[1..][k].email) == key;
      assert users[k + 1].id == MatchingIds(users, key)[j];
    }
  }

  /** Every user whose e-mail matches the key is among the ids found. */
  lemma {:induction false} MatchingIdsHas(users: seq<User>, key: string, k: nat)
    requires k < |users| && Lower(users[k].email) == key
    ensures users[k].id in MatchingIds(users, key)
  {
    if k > 0 {
      MatchingIdsHas(users[1..], key, k - 1);
      assert users[1..][k - 1] == users[k];
    }
  }

  /** Two different matching users give at least two ids. */
  lemma {:induction false} MatchingIdsTwo(users: seq<User>, key: string, i: nat, j: nat)
    requires i < j < |users| && Lower(users[i].email) == key && Lower(users[j].email) == key
    ensures |MatchingIds(users, key)| >= 2
  {
    var tail := users[1..];
    assert users[j] == tail[j - 1];
    if i == 0 {
      assert MatchingIds(tail, key) != [];
    } else {
      assert users[i] == tail[i - 1];
      MatchingIdsTwo(tail, key, i - 1, j - 1);
    }
  }

  /** At least two ids come only from two different matching users. */
  lemma {:induction false} MatchingIdsTwoFrom(users: seq<User>, key: string)
    requires |MatchingIds(users, key)| >= 2
    ensures exists i, j :: 0 <= i < j < |users| && Lower(users[i].email) == key && Lower(users[j].email) == key
  {
    var tail := users[1..];
    if Lower(users[0].email) == key {
      assert MatchingIds(tail, key) != [];
      var k :| 0 <= k < |tail| && Lower(tail[k].email) == key;
      assert users[k + 1] == tail[k];
    } else {
      MatchingIdsTwoFrom(tail, key);
      var i, j :| 0 <= i < j < |tail| && Lower(tail[i].email) == key && Lower(tail[j].email) == key;
      assert users[i + 1] == tail[i] && users[j + 1] == tail[j];
    }
  }

  /** The lookup raises because of several users exactly when two different
      users have the address, ignoring case. */
  lemma LookupEmailMany(users: seq<User>, email: string)
    ensures LookupEmail(users, email) == ManyUsers
      <==> exists i, j :: 0 <= i < j < |users| && Lower(users[i].email) == Lower(email) && Lower(users[j].email) == Lower(email)
  {
    var key := Lower(email);
    if |MatchingIds(users, key)| >= 2 {
      MatchingIdsTwoFrom(users, key);
    }
    if exists i, j :: 0 <= i < j < |users| && Lower(users[i].email) == key && Lower(users[j].email) == key {
      var i, j :| 0 <= i < j < |users| && Lower(users[i].email) == key && Lower(users[j].email) == key;
      MatchingIdsTwo(users, key, i, j);
    }
  }

  /** No user is found exactly when no e-mail matches the address up to case. */
  lemma LookupEmailNone(users: seq<User>, email: string)
    ensures LookupEmail(users, email) == NoUser <==> forall k :: 0 <= k < |users| ==> Lower(users[k].email) != Lower(email)
  {
  }

  /** The single user found has that address, up to case, and every user
      with that address is that user. */
  lemma LookupEmailFound(users: seq<User>, email: string)
    requires LookupEmail(users, email).OneUser?
    ensures exists k :: 0 <= k < |users| && users[k].id == LookupEmail(users, email).id && Lower(users[k].email) == Lower(email)
    ensures forall k :: 0 <= k < |users| && Lower(users[k].email) == Lower(email) ==> users[k].id == LookupEmail(users, email).id
  {
    MatchingIdsIn(users, Lower(email), 0);
    forall k | 0 <= k < |users| && Lower(users[k].email) == Lower(email)
      ensures users[k].id == LookupEmail(users, email).id
    {
      MatchingIdsHas(users, Lower(email), k);
    }
  }

  /** The lookup does not depend on the case of the address. */
  lemma LookupIgnoresCase(users: seq<User>, a: string, b: string)
    requires Lower(a) == Lower(b)
    ensures LookupEmail(users, a) == LookupEmail(users, b)
  {
  }

  /** `User.objects.get(email__iexact=e)` over the users table `users`, as
      the lookup the command's fold applies to each address. */
  function Finder(users: seq<User>): string -> Lookup {
    e => LookupEmail(users, e)
  }

  /** Where the command stands after some addresses: the count of users added,
      the addresses with no user, the group's members, and whether a lookup
      raised because several users share an address. */
  datatype Run = Run(added: nat, missing: seq<string>, members: set<UserId>, aborted: bool)

  /** One address: a miss is recorded, a single user joins the group, an
      ambiguous address stops the command; nothing happens once stopped. */
  function Step(r: Run, e: string, found: Lookup): Run {
    if r.aborted then r
    else match found
      case NoUser => r.(missing := r.missing + [e])
      case OneUser(id) => r.(added := r.added + 1, members := r.members + {id})
      case ManyUsers => r.(aborted := true)
  }

  /** The command's progress over the first `n` normalised lines `ns`,
      starting from the group's members `members0`: a blank line is
      skipped, any other is one `Step`. */
  function RunUpTo(find: string -> Lookup, members0: set<UserId>, ns: seq<string>, n: nat): Run
    requires n <= |ns|
  {
    if n == 0 then Run(0, [], members0, false)
    else if ns[n - 1] == "" then RunUpTo(find, members0, ns, n - 1)
    else Step(RunUpTo(find, members0, ns, n - 1), ns[n - 1], find(ns[n - 1]))
  }

  /** Before stopping, every non-blank line is counted once: either added or missing. */
  lemma {:induction false} AddedPlusMissing(find: string -> Lookup, members0: set<UserId>, ns: seq<string>, n: nat)
    requires n <= |ns| && !RunUpTo(find, members0, ns, n).aborted
    ensures RunUpTo(find, members0, ns, n).added + |RunUpTo(find, members0, ns, n).missing| == |NonBlankUpTo(ns, n)|
  {
    if n > 0 {
      AddedPlusMissing(find, members0, ns, n - 1);
    }
  }

  /** The command stops exactly when the address on some non-blank line is
      shared by several users. */
  lemma {:induction false} AbortedIff(find: string -> Lookup, members0: set<UserId>, ns: seq<string>, n: nat)
    requires n <= |ns|
    ensures RunUpTo(find, members0, ns, n).aborted
      <==> exists k :: 0 <= k < n && ns[k] != "" && find(ns[k]).ManyUsers?
  {
    if n > 0 {
      AbortedIff(find, members0, ns, n - 1);
      if RunUpTo(find, members0, ns, n).aborted && !RunUpTo(find, members0, ns, n - 1).aborted {
        assert ns[n - 1] != "" && find(ns[n - 1]).ManyUsers?;
      }
    }
  }

  /** When the command runs to the end, an address is missing exactly when
      it stands on some line and no user has it. */
  lemma {:induction false} MissingIff(find: string -> Lookup, members0: set<UserId>, ns: seq<string>, n: nat)
    requires n <= |ns| && !RunUpTo(find, members0, ns, n).aborted
    ensures forall e ::
      e in RunUpTo(find, members0, ns, n).missing <==> e != "" && (exists k :: 0 <= k < n && ns[k] == e) && find(e) == NoUser
  {
    if n > 0 {
      MissingIff(find, members0, ns, n - 1);
      forall e | e != "" && (exists k :: 0 <= k < n && ns[k] == e) && find(e) == NoUser
        ensures e in RunUpTo(find, members0, ns, n).missing
      {
        var k :| 0 <= k < n && ns[k] == e;
        if k < n - 1 {
          assert e in RunUpTo(find, members0, ns, n - 1).missing;
        }
      }
    }
  }

  /** The addresses on the first `n` lines that no user has, in file order. */
  function Unmatched(find: string -> Lookup, ns: seq<string>, n: nat): seq<string>
    requires n <= |ns|
  {
    if n == 0 then []
    else Unmatched(find, ns, n - 1) + (if ns[n - 1] != "" && find(ns[n - 1]) == NoUser then [ns[n - 1]] else [])
  }

  /** When the command runs to the end, the missing addresses are those no
      user has, each as often and in the order the file lists it. */
  lemma {:induction false} MissingInFileOrder(find: string -> Lookup, members0: set<UserId>, ns: seq<string>, n: nat)
    requires n <= |ns| && !RunUpTo(find, members0, ns, n).aborted
    ensures RunUpTo(find, members0, ns, n).missing == Unmatched(find, ns, n)
  {
    if n > 0 {
      MissingInFileOrder(find, members0, ns, n - 1);
    }
  }

  /** The group only grows, and what joins it is one fixed set of users
      found by the addresses, whatever the group held before. */
  lemma {:induction false} MembersUnion(find: string -> Lookup, members0: set<UserId>, ns: seq<string>, n: nat)
    requires n <= |ns|
    ensures RunUpTo(find, members0, ns, n).members == members0 + RunUpTo(find, {}, ns, n).members
    ensures RunUpTo(find, members0, ns, n).aborted == RunUpTo(find, {}, ns, n).aborted
  {
    if n > 0 {
      MembersUnion(find, members0, ns, n - 1);
    }
  }

  /** Each user who joins the group was found, alone, by the address on one
      of the non-blank lines. */
  lemma {:induction false} MembersFound(find: string -> Lookup, ns: seq<string>, n: nat)
    requires n <= |ns|
    ensures forall id ::
      id in RunUpTo(find, {}, ns, n).members ==> exists k :: 0 <= k < n && ns[k] != "" && find(ns[k]) == OneUser(id)
  {
    if n > 0 {
      MembersFound(find, ns, n - 1);
      forall id | id in RunUpTo(find, {}, ns, n).members
        ensures exists k :: 0 <= k < n && ns[k] != "" && find(ns[k]) == OneUser(id)
      {
        if id !in RunUpTo(find, {}, ns, n - 1).members {
          assert ns[n - 1] != "" && find(ns[n - 1]) == OneUser(id);
        }
      }
    }
  }

  /** Running the command a second time on the same file leaves the group as the first run left it. */
  lemma RerunKeepsMembers(find: string -> Lookup, members0: set<UserId>, ns: seq<string>, n: nat)
    requires n <= |ns|
    ensures var once := RunUpTo(find, members0, ns, n).members;
      RunUpTo(find, once, ns, n).members == once
  {
    MembersUnion(find, members0, ns, n);
    MembersUnion(find, RunUpTo(find, members0, ns, n).members, ns, n);
  }

  /** Once stopped, later lines change nothing. */
  lemma {:induction false} StaysAborted(find: string -> Lookup, members0: set<UserId>, ns: seq<string>, i: nat, n: nat)
    requires i <= n <= |ns|
    requires RunUpTo(find, members0, ns, i).aborted
    ensures RunUpTo(find, members0, ns, n) == RunUpTo(find, members0, ns, i)
  {
    if i < n {
      StaysAborted(find, members0, ns, i, n - 1);
    }
  }

  /** The messages the command writes. */
  datatype Report = AddedReport(count: nat) | MissingReport(emails: seq<string>)

  /** The messages of a run that reached the end: the count, then the
      missing addresses when there are any. */
  function Reports(r: Run): (rs: seq<Report>)
    ensures |rs| >= 1 && rs[0] == AddedReport(r.added)
    ensures |rs| == (if r.missing != [] then 2 else 1)
    ensures |rs| == 2 ==> rs[1] == MissingReport(r.missing)
  {
    [AddedReport(r.added)] + (if r.missing != [] then [MissingReport(r.missing)] else [])
  }

  /** The body of the loop for one non-blank address: look it up, then
      record it as missing, add the user found to the group, or stop. */
  method Visit(find: string -> Lookup, email: string, added0: nat, missing0: seq<string>, members0: set<UserId>)
    returns (added: nat, missing: seq<string>, members: set<UserId>, stop: bool)
    ensures Run(added, missing, members, stop) == Step(Run(added0, missing0, members0, false), email, find(email))
  {
    added, missing, members, stop := added0, missing0, members0, false;
    match find(email) {
      case NoUser =>
        missing := missing + [email];
      case ManyUsers =>
        stop := true;
      case OneUser(id) =>
        members := members + {id};
        added := added + 1;
    }
  }

  /** The loop of `Command.handle` with the user lookup `find`: the group's
      members before the run are `members0` and the file's lines are
      `lines`. A stopped run writes no message. */
  method AddFromLines(lines: seq<string>, find: string -> Lookup, members0: set<UserId>)
    returns (added: nat, missing: seq<string>, members: set<UserId>, reports: seq<Report>, aborted: bool)
    ensures Run(added, missing, members, aborted) == RunUpTo(find, members0, Normalized(lines), |lines|)
    ensures !aborted ==> reports == Reports(Run(added, missing, members, aborted))
    ensures aborted ==> reports == []
  {
    added, missing, members, reports, aborted := 0, [], members0, [], false;
    var i := 0;
    ghost var ns := Normalized(lines);
    while i < |lines|
      invariant 0 <= i <= |lines|
      invariant RunUpTo(find, members0, ns, i) == Run(added, missing, members, false)
    {
      var email := Normalize(lines[i]);
      NormalizedAt(lines, i);
      if email != "" {
        added, missing, members, aborted := Visit(find, email, added, missing, members);
        if aborted {
          StaysAborted(find, members0, ns, i + 1, |lines|);
          return;
        }
      }
      i := i + 1;
    }
    reports := Reports(Run(added, missing, members, aborted));
  }

  /** `Command.handle` over the users table `users`: the loop, with each
      address looked up ignoring case. */
  method Handle(lines: seq<string>, users: seq<User>, members0: set<UserId>)
    returns (added: nat, missing: seq<string>, members: set<UserId>, reports: seq<Report>, aborted: bool)
    ensures Run(added, missing, members, aborted) == RunUpTo(Finder(users), members0, Normalized(lines), |lines|)
    ensures !aborted ==> reports == Reports(Run(added, missing, members, aborted))
    ensures aborted ==> reports == []
  {
    added, missing, members, reports, aborted := AddFromLines(lines, Finder(users), members0);
  }
}
