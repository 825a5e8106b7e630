/** Archive inventories: the member check of the restore side and the counting filter of the save side. */
module Archive {
  import opened Common
  import Pointer

  datatype Kind = RegularFile | Directory | Special

  /** Modification times may be any float; only finite, nonnegative ones pass. */
  datatype Time = Finite(t: real) | NotFinite

  datatype Member = Member(name: string, kind: Kind, mode: nat, size: int, mtime: Time)

  const MAX_MEMBERS := 100_000
  const MAX_EXPANDED := 12 * 1024 * 1024 * 1024

  function StripSlashes(s: string): string {
    if s != [] && Last(s) == '/' then StripSlashes(Init(s)) else s
  }

  /** Directories may carry trailing slashes in their stored name. */
  function PlainName(m: Member): string {
    if m.kind.Directory? then StripSlashes(m.name) else m.name
  }

  /** Relative, canonical and below `build`: no empty, "." or ".." component, no backslash, no control character. */
  predicate SafeName(name: string, directory: bool) {
    var parts := Split(name);
    && (forall i | 0 <= i < |name| :: name[i] != '\\' && name[i] >= ' ')
    && (forall i | 0 <= i < |parts| :: parts[i] != "" && parts[i] != "." && parts[i] != "..")
    && parts[0] == "build"
    && (|parts| == 1 ==> directory)
  }

  /** What one member must satisfy on its own. */
  predicate SafeMember(m: Member) {
    && SafeName(PlainName(m), m.kind.Directory?)
    && !m.kind.Special?
    && (m.mode / 512) % 8 == 0
    && m.size >= 0
    && m.mtime.Finite? && m.mtime.t >= 0.0
  }

  // ----- what a safe member is -----

  /** Where a relative name leads, component by component; nothing once it climbs out of its start. */
  function Resolve(parts: seq<string>): Option<seq<string>> {
    if parts == [] then Some([])
    else
      var at := Resolve(Init(parts));
      if at.None? || Last(parts) == "" || Last(parts) == "." then at
      else if Last(parts) != ".." then Some(at.value + [Last(parts)])
      else if at.value == [] then None
      else Some(Init(at.value))
  }

  ghost predicate Plain(part: string) {
    part != "" && part != "." && part != ".."
  }

  lemma {:induction false} ResolvesToItself(parts: seq<string>)
    requires forall part | part in parts :: Plain(part)
    ensures Resolve(parts) == Some(parts)
  {
    if parts != [] {
      ResolvesToItself(Init(parts));
      assert Last(parts) in parts && parts == Init(parts) + [Last(parts)];
    }
  }

  lemma {:induction false} ResolvedIsPlain(parts: seq<string>)
    requires Resolve(parts).Some?
    ensures forall part | part in Resolve(parts).value :: Plain(part) && part in parts
  {
    if parts != [] {
      ResolvedIsPlain(Init(parts));
    }
  }

  /**
    A name is accepted exactly when its characters are printable and no backslash, and it leads, without
    any step undone or skipped, to a place at or below `build` whose path is the name itself; `build` as
    such only for a directory.
   */
  lemma SafeNameIsCanonical(name: string, directory: bool)
    ensures SafeName(name, directory) <==>
            var path := Resolve(Split(name));
            && (forall c | c in name :: c != '\\' && c as int >= 32)
            && path.Some? && path.value != [] && path.value[0] == "build" && Pointer.Unsplit(path.value) == "/" + name
            && (|path.value| == 1 ==> directory)
  {
    hide Split, Resolve;
    Pointer.UnsplitSplit(name);
    PrintableName(name);
    if SafeName(name, directory) {
      ResolvesToItself(Split(name));
    }
    var path := Resolve(Split(name));
    if path.Some? && path.value != [] && Pointer.Unsplit(path.value) == "/" + name {
      CanonicalIsPlain(name);
    }
  }

  lemma PrintableName(name: string)
    ensures (forall c | c in name :: c != '\\' && c as int >= 32) <==>
            forall i | 0 <= i < |name| :: name[i] != '\\' && name[i] >= ' '
  {
    assert forall i | 0 <= i < |name| :: name[i] in name;
  }

  lemma CanonicalIsPlain(name: string)
    requires Resolve(Split(name)).Some? && Resolve(Split(name)).value != []
    requires Pointer.Unsplit(Resolve(Split(name)).value) == "/" + name
    ensures Resolve(Split(name)).value == Split(name)
    ensures forall i | 0 <= i < |Split(name)| :: Plain(Split(name)[i])
  {
    hide Split, Resolve;
    var path := Resolve(Split(name)).value;
    ResolvedIsPlain(Split(name));
    Pointer.SplitUnsplit(path);
    assert ("/" + name)[1..] == name;
  }

  /** No step on the way leaves `build`, and distinct names lead to distinct places. */
  lemma SafeNamesStayInside(name: string, directory: bool, k: nat)
    requires SafeName(name, directory) && 0 < k <= |Split(name)|
    ensures Resolve(Split(name)[..k]).Some? && Resolve(Split(name)[..k]).value != []
    ensures Resolve(Split(name)[..k]).value[0] == "build"
    ensures forall other, d | SafeName(other, d) && Resolve(Split(other)) == Resolve(Split(name)) :: other == name
  {
    ResolvesToItself(Split(name)[..k]);
    hide Resolve, Split;
    forall other, d | SafeName(other, d) && Resolve(Split(other)) == Resolve(Split(name)) ensures other == name {
      SafeNameIsCanonical(name, directory);
      SafeNameIsCanonical(other, d);
      assert ("/" + name)[1..] == name && ("/" + other)[1..] == other;
    }
  }

  lemma {:induction false} StrippedSlashes(s: string)
    ensures StripSlashes(s) <= s && forall i | |StripSlashes(s)| <= i < |s| :: s[i] == '/'
    ensures StripSlashes(s) != [] ==> Last(StripSlashes(s)) != '/'
  {
    if s != [] && Last(s) == '/' {
      StrippedSlashes(Init(s));
    }
  }

  /** A safe member: a regular file or a directory, its name safe, no special bit, finite nonnegative numbers. */
  lemma SafeMemberExactly(m: Member)
    ensures SafeMember(m) <==>
            && m.kind in {RegularFile, Directory} && SafeName(PlainName(m), m.kind == Directory)
            && (m.mode / 0x800) % 2 == 0 && (m.mode / 0x400) % 2 == 0 && (m.mode / 0x200) % 2 == 0
            && m.size >= 0 && m.mtime.Finite? && m.mtime.t >= 0.0
    ensures m.kind.Directory? ==>
              && PlainName(m) <= m.name && (PlainName(m) != [] ==> Last(PlainName(m)) != '/')
              && forall i | |PlainName(m)| <= i < |m.name| :: m.name[i] == '/'
    ensures !m.kind.Directory? ==> PlainName(m) == m.name
  {
    hide SafeName;
    StrippedSlashes(m.name);
    ModeBits(m.mode);
  }

  /** The three bits above the permissions: set user, set group, sticky. */
  lemma ModeBits(mode: nat)
    ensures (mode / 512) % 8 == 0 <==> (mode / 0x800) % 2 == 0 && (mode / 0x400) % 2 == 0 && (mode / 0x200) % 2 == 0
  {
    Halved(mode, mode / 512, 512);
    Halved(mode, mode / 0x400, 0x400);
    ThreeBits(mode / 512);
  }

  lemma Halved(n: nat, q: nat, d: nat)
    requires d in {512, 0x400} && q == n / d
    ensures n / (2 * d) == q / 2
  {
    var y, s, r := q / 2, q % 2, n % d;
    assert n == 2 * d * y + (s * d + r) && 0 <= s * d + r < 2 * d;
  }

  lemma ThreeBits(x: nat)
    ensures x % 8 == 0 <==> x % 2 == 0 && x / 2 % 2 == 0 && x / 2 / 2 % 2 == 0
  {
    var b := x / 2 / 2;
    RemainderOf(x, b / 2, 4 * (b % 2) + 2 * (x / 2 % 2) + x % 2);
  }

  lemma RemainderOf(x: nat, c: nat, r: nat)
    requires x == 8 * c + r && r < 8
    ensures x % 8 == r
  {
  }

  // ----- inventories -----

  function TotalSize(members: seq<Member>): int {
    if members == [] then 0 else TotalSize(Init(members)) + Last(members).size
  }

  ghost predicate DistinctNames(members: seq<Member>) {
    forall i, j :: 0 <= i < j < |members| ==> PlainName(members[i]) != PlainName(members[j])
  }

  /** The inventory the check accepts, said at once. */
  ghost predicate Acceptable(members: seq<Member>) {
    && members != []
    && (forall i | 0 <= i < |members| :: SafeMember(members[i]))
    && DistinctNames(members)
    && |members| <= 100_000
    && TotalSize(members) <= 12 * 1024 * 1024 * 1024
  }

  lemma {:induction false} TotalSizeGrows(members: seq<Member>, k: nat)
    requires k <= |members| && forall i | 0 <= i < |members| :: members[i].size >= 0
    ensures 0 <= TotalSize(members[..k]) <= TotalSize(members)
  {
    if members != [] {
      if k == |members| {
        TotalSizeGrows(Init(members), k - 1);
        assert members[..k] == members && Init(members)[..k - 1] == Init(members);
      } else {
        TotalSizeGrows(Init(members), k);
        assert Init(members)[..k] == members[..k];
      }
    }
  }

  lemma OversizedPrefix(entries: seq<Member>, k: nat)
    requires k <= |entries| && (k > MAX_MEMBERS || TotalSize(entries[..k]) > MAX_EXPANDED)
    ensures !Acceptable(entries)
  {
    if forall i | 0 <= i < |entries| :: SafeMember(entries[i]) {
      TotalSizeGrows(entries, k);
    }
  }

  lemma TotalSizeNext(entries: seq<Member>, i: nat)
    requires i < |entries|
    ensures TotalSize(entries[..i + 1]) == TotalSize(entries[..i]) + entries[i].size
  {
    assert Init(entries[..i + 1]) == entries[..i];
  }

  /** The loop rejects at the first bad member, repeated name or exceeded bound; together exactly the inventory above. */
  method ValidateMembers(entries: seq<Member>) returns (ok: bool)
    ensures ok <==> Acceptable(entries)
  {
    hide SafeName, PlainName, SafeMember;
    var names: set<string> := {};
    var expanded, count := 0, 0;
    assert TotalSize(entries[..0]) == 0;
    hide TotalSize;
    for i := 0 to |entries|
      invariant count == i && expanded == TotalSize(entries[..i])
      invariant forall name :: name in names <==> exists k :: 0 <= k < i && PlainName(entries[k]) == name
      invariant forall k | 0 <= k < i :: SafeMember(entries[k])
      invariant DistinctNames(entries[..i])
      invariant i > 0 ==> count <= MAX_MEMBERS && expanded <= MAX_EXPANDED
    {
      var name := PlainName(entries[i]);
      if !SafeMember(entries[i]) || name in names {
        return false;
      }
      names := names + {name};
      TotalSizeNext(entries, i);
      expanded := expanded + entries[i].size;
      count := count + 1;
      if count > MAX_MEMBERS || expanded > MAX_EXPANDED {
        OversizedPrefix(entries, i + 1);
        return false;
      }
    }
    assert entries[..|entries|] == entries;
    return entries != [];
  }

  // ----- order does not matter -----

  lemma {:induction false} TotalSizeRemove(members: seq<Member>, k: nat)
    requires k < |members|
    ensures TotalSize(members) == TotalSize(members[..k] + members[k + 1..]) + members[k].size
  {
    var rest := members[..k] + members[k + 1..];
    if k == |members| - 1 {
      assert rest == Init(members);
    } else {
      TotalSizeRemove(Init(members), k);
      assert Init(rest) == Init(members)[..k] + Init(members)[k + 1..] && Last(rest) == Last(members);
    }
  }

  lemma RemoveCounts(members: seq<Member>, k: nat)
    requires k < |members|
    ensures multiset(members[..k] + members[k + 1..]) == multiset(members) - multiset{members[k]}
  {
    assert members == members[..k] + [members[k]] + members[k + 1..];
  }

  lemma {:induction false} TotalSizePermuted(a: seq<Member>, b: seq<Member>)
    requires multiset(a) == multiset(b)
    ensures TotalSize(a) == TotalSize(b) && |a| == |b|
  {
    assert b != [] ==> b[0] in multiset(b);
    if a != [] {
      assert Last(a) in multiset(b);
      var k :| 0 <= k < |b| && b[k] == Last(a);
      RemoveCounts(b, k);
      assert a == Init(a) + [Last(a)];
      TotalSizePermuted(Init(a), b[..k] + b[k + 1..]);
      TotalSizeRemove(b, k);
    }
  }

  /** A repeated name among members is a member counted twice or two members of one name. */
  lemma DistinctAsCounts(members: seq<Member>)
    ensures DistinctNames(members) <==>
            (forall m :: multiset(members)[m] <= 1)
            && forall m, n | m in multiset(members) && n in multiset(members) && PlainName(m) == PlainName(n) :: m == n
  {
    if DistinctNames(members) {
      forall m ensures multiset(members)[m] <= 1 { CountAtMostOne(members, m); }
    } else {
      var i, j :| 0 <= i < j < |members| && PlainName(members[i]) == PlainName(members[j]);
      assert members[i] in multiset(members) && members[j] in multiset(members);
      if members[i] == members[j] {
        RemoveCounts(members, j);
        assert (members[..j] + members[j + 1..])[i] == members[i];
        assert members[i] in multiset(members[..j] + members[j + 1..]);
        assert multiset(members)[members[i]] > 1;
      }
    }
  }

  lemma {:induction false} CountAtMostOne(members: seq<Member>, m: Member)
    requires DistinctNames(members)
    ensures multiset(members)[m] <= 1
  {
    if members != [] {
      CountAtMostOne(Init(members), m);
      assert members == Init(members) + [Last(members)];
      if Last(members) == m {
        assert m !in Init(members);
      }
    }
  }

  lemma SafeCarries(a: seq<Member>, b: seq<Member>)
    requires multiset(a) == multiset(b) && forall i | 0 <= i < |a| :: SafeMember(a[i])
    ensures forall i | 0 <= i < |b| :: SafeMember(b[i])
  {
    hide SafeMember;
    forall i | 0 <= i < |b| ensures SafeMember(b[i]) {
      assert b[i] in multiset(a);
      var j :| 0 <= j < |a| && a[j] == b[i];
    }
  }

  lemma DistinctCarries(a: seq<Member>, b: seq<Member>)
    requires multiset(a) == multiset(b)
    ensures DistinctNames(a) <==> DistinctNames(b)
  {
    hide PlainName, DistinctNames;
    DistinctAsCounts(a);
    DistinctAsCounts(b);
  }

  /** The check does not depend on the order of the entries. */
  lemma AcceptableInAnyOrder(a: seq<Member>, b: seq<Member>)
    requires multiset(a) == multiset(b)
    ensures Acceptable(a) <==> Acceptable(b)
  {
    hide SafeMember, DistinctNames, TotalSize;
    TotalSizePermuted(a, b);
    DistinctCarries(a, b);
    if forall i | 0 <= i < |a| :: SafeMember(a[i]) { SafeCarries(a, b); }
    if forall i | 0 <= i < |b| :: SafeMember(b[i]) { SafeCarries(b, a); }
  }

  // ----- what was saved can be restored -----

  /** The save filter: each member alone must pass, and the running totals must fit. */
  method PreserveAll(members: seq<Member>) returns (ok: bool)
    ensures ok <==> (forall i | 0 <= i < |members| :: Acceptable([members[i]]))
                    && |members| <= MAX_MEMBERS && TotalSize(members) <= MAX_EXPANDED
  {
    hide SafeName, PlainName;
    var count, expanded := 0, 0;
    for i := 0 to |members|
      invariant count == i && expanded == TotalSize(members[..i])
      invariant forall k | 0 <= k < i :: Acceptable([members[k]])
      invariant count <= MAX_MEMBERS && expanded <= MAX_EXPANDED
    {
      var alone := ValidateMembers([members[i]]);
      if !alone {
        return false;
      }
      assert Init(members[..i + 1]) == members[..i];
      count := count + 1;
      expanded := expanded + members[i].size;
      if count > MAX_MEMBERS || expanded > MAX_EXPANDED {
        if forall k | 0 <= k < |members| :: Acceptable([members[k]]) {
          forall k | 0 <= k < |members| ensures members[k].size >= 0 { assert SafeMember([members[k]][0]); }
          TotalSizeGrows(members, i + 1);
        }
        return false;
      }
    }
    assert members[..|members|] == members;
    return true;
  }

  /** The stored name of a tree entry: the root is `build`, everything else lies below it. */
  function StoredName(relative: string): string {
    if relative == "." then "build" else "build/" + relative
  }

  /** The root is stored as `build` itself, everything else component by component below it. */
  lemma StoredBelowBuild(relative: string)
    ensures Split(StoredName(".")) == ["build"]
    ensures relative != "." ==> Split(StoredName(relative)) == ["build"] + Split(relative)
  {
    hide Split;
    Pointer.SplitPlain("build");
    SplitBelow("build", relative);
    assert "build" + "/" == "build/";
  }

  lemma SplitBelow(first: string, relative: string)
    requires '/' !in first
    ensures Split(first + "/" + relative) == [first] + Split(relative)
  {
    hide Split;
    var parts, slash := [first] + Split(relative), "/";
    UnsplitFirst(first, Split(relative));
    Pointer.UnsplitSplit(relative);
    Pointer.SplitUnsplit(parts);
    assert (slash + first + (slash + relative))[1..] == first + slash + relative;
  }

  lemma {:induction false} UnsplitFirst(first: string, rest: seq<string>)
    ensures Pointer.Unsplit([first] + rest) == "/" + first + Pointer.Unsplit(rest)
  {
    if rest == [] {
      assert [first] + rest == [first] && Init([first]) == [];
      assert Pointer.Unsplit([]) == [];
    } else {
      UnsplitFirst(first, Init(rest));
      assert Init([first] + rest) == [first] + Init(rest) && Last([first] + rest) == Last(rest);
    }
  }

  lemma StoredNamesDistinct(a: string, b: string)
    requires a != b
    ensures StoredName(a) != StoredName(b)
  {
    assert a == ("build/" + a)[6..] && b == ("build/" + b)[6..];
    assert |"build"| == 5;
  }

  /** Reading an archive back may only add or remove the trailing slashes of directory names. */
  ghost predicate ReadsBack(saved: Member, read: Member) {
    && read == saved.(name := read.name)
    && PlainName(read) == PlainName(saved)
  }

  /** Names that the filter accepts carry no trailing slash of their own. */
  lemma SavedInventoryRestores(relative: seq<string>, saved: seq<Member>, read: seq<Member>)
    requires |relative| == |saved| == |read| > 0
    requires forall i, j :: 0 <= i < j < |relative| ==> relative[i] != relative[j]
    requires forall i | 0 <= i < |saved| :: PlainName(saved[i]) == StoredName(relative[i]) && ReadsBack(saved[i], read[i])
    requires forall i | 0 <= i < |saved| :: Acceptable([saved[i]])
    requires |saved| <= MAX_MEMBERS && TotalSize(saved) <= MAX_EXPANDED
    ensures Acceptable(read)
  {
    forall i, j | 0 <= i < j < |read| ensures PlainName(read[i]) != PlainName(read[j]) {
      StoredNamesDistinct(relative[i], relative[j]);
    }
    forall i | 0 <= i < |read| ensures SafeMember(read[i]) {
      assert SafeMember([saved[i]][0]);
    }
    SameTotals(saved, read);
  }

  lemma {:induction false} SameTotals(a: seq<Member>, b: seq<Member>)
    requires |a| == |b| && forall i | 0 <= i < |a| :: a[i].size == b[i].size
    ensures TotalSize(a) == TotalSize(b)
  {
    if a != [] {
      SameTotals(Init(a), Init(b));
    }
  }
}
