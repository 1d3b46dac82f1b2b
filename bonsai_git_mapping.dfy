/** The pure and loop logic of the bonsai <-> git commit mapping: reading
    the git commit id out of a bonsai changeset's hg extras, classifying the
    result of a prefix lookup, and the "every id must map" conversions. The
    SQL store is an input: what `get` and `get_in_range` return is passed
    in. */
module BonsaiGitMapping {
  import opened Wrappers

  type byte = bv8

  /** A bonsai changeset id (a Blake2 hash). */
  datatype ChangesetId = ChangesetId(blake2: seq<byte>)

  /** A git commit id. */
  datatype GitSha1 = GitSha1(sha1: seq<byte>)

  /** One row of the mapping. */
  datatype BonsaiGitMappingEntry = BonsaiGitMappingEntry(gitSha1: GitSha1, bcsId: ChangesetId)

  // ---------------------------------------------------------------------
  // BonsaisOrGitShas
  // ---------------------------------------------------------------------

  /** The ids a lookup asks for: bonsai changeset ids or git commit ids. */
  datatype BonsaisOrGitShas = Bonsai(bonsais: seq<ChangesetId>) | GitSha1s(shas: seq<GitSha1>)

  /** `count`: the number of ids, whichever kind. */
  function Count(ids: BonsaisOrGitShas): (n: nat)
    ensures n == if ids.Bonsai? then |ids.bonsais| else |ids.shas|
  {
    match ids
    case Bonsai(v) => |v|
    case GitSha1s(v) => |v|
  }

  /** `is_empty`: no ids, whichever kind. */
  function IsEmpty(ids: BonsaisOrGitShas): (b: bool)
    ensures b <==> (ids.Bonsai? && ids.bonsais == []) || (ids.GitSha1s? && ids.shas == [])
  {
    match ids
    case Bonsai(v) => v == []
    case GitSha1s(v) => v == []
  }

  /** `is_empty` agrees with `count`. */
  lemma IsEmptyIffCountZero(ids: BonsaisOrGitShas)
    ensures IsEmpty(ids) <==> Count(ids) == 0
  {
  }

  /** The four `From` conversions. */
  function FromChangesetId(csId: ChangesetId): BonsaisOrGitShas { Bonsai([csId]) }
  function FromChangesetIds(csIds: seq<ChangesetId>): BonsaisOrGitShas { Bonsai(csIds) }
  function FromGitSha1(sha: GitSha1): BonsaisOrGitShas { GitSha1s([sha]) }
  function FromGitSha1s(shas: seq<GitSha1>): BonsaisOrGitShas { GitSha1s(shas) }

  /** A single id converts to a one-element list of its own kind; a list
      converts to the same list of its own kind. */
  lemma FromConversions(csId: ChangesetId, csIds: seq<ChangesetId>, sha: GitSha1, shas: seq<GitSha1>)
    ensures FromChangesetId(csId).Bonsai? && Count(FromChangesetId(csId)) == 1 && FromChangesetId(csId).bonsais[0] == csId
    ensures FromGitSha1(sha).GitSha1s? && Count(FromGitSha1(sha)) == 1 && FromGitSha1(sha).shas[0] == sha
    ensures FromChangesetIds(csIds).Bonsai? && FromChangesetIds(csIds).bonsais == csIds && Count(FromChangesetIds(csIds)) == |csIds|
    ensures FromGitSha1s(shas).GitSha1s? && FromGitSha1s(shas).shas == shas && Count(FromGitSha1s(shas)) == |shas|
    ensures FromChangesetId(csId) == FromChangesetIds([csId]) && FromGitSha1(sha) == FromGitSha1s([sha])
  {
  }

  // ---------------------------------------------------------------------
  // extract_git_sha1_from_bonsai_extra
  // ---------------------------------------------------------------------

  const HgGitSourceExtra: string := "hg-git-rename-source"
  const ConvertRevisionExtra: string := "convert_revision"
  /** The bytes of `"git"`. */
  const GitBytes: seq<byte> := [0x67, 0x69, 0x74]

  datatype ExtractError = NotAscii(value: seq<byte>) | InvalidGitSha1(text: string)

  /** The value of the last extra with the given key, if any. */
  function LastValue(extra: seq<(string, seq<byte>)>, key: string): Option<seq<byte>> {
    if extra == [] then None
    else if extra[|extra| - 1].0 == key then Some(extra[|extra| - 1].1)
    else LastValue(extra[..|extra| - 1], key)
  }

  /** The last occurrence of a key wins. */
  lemma {:induction false} LastOccurrenceWins(extra: seq<(string, seq<byte>)>, key: string, i: nat)
    requires i < |extra| && extra[i].0 == key
    requires forall j :: i < j < |extra| ==> extra[j].0 != key
    ensures LastValue(extra, key) == Some(extra[i].1)
  {
    if i < |extra| - 1 {
      LastOccurrenceWins(extra[..|extra| - 1], key, i);
    }
  }

  /** A key that never occurs has no value. */
  lemma {:induction false} AbsentKey(extra: seq<(string, seq<byte>)>, key: string)
    requires forall j :: 0 <= j < |extra| ==> extra[j].0 != key
    ensures LastValue(extra, key) == None
  {
    if extra != [] {
      AbsentKey(extra[..|extra| - 1], key);
    }
  }

  predicate IsAscii(value: seq<byte>) { forall i :: 0 <= i < |value| ==> value[i] < 0x80 }

  function AsciiText(value: seq<byte>): (s: string)
    requires IsAscii(value)
    ensures |s| == |value| && forall i :: 0 <= i < |s| ==> s[i] as int == value[i] as int
  {
    if value == [] then [] else [value[0] as char] + AsciiText(value[1..])
  }

  /** `extract_git_sha1_from_bonsai_extra`, with `GitSha1::from_ascii_str`
      passed in as `parseSha`. The git id is reported only when the last
      `hg-git-rename-source` extra is exactly `git` and a `convert_revision`
      extra exists; a non-ASCII or unparsable `convert_revision` is an
      error, not an absent id. */
  method ExtractGitSha1FromBonsaiExtra(extra: seq<(string, seq<byte>)>, parseSha: string -> Option<GitSha1>)
    returns (r: Result<Option<GitSha1>, ExtractError>)
    ensures var source := LastValue(extra, HgGitSourceExtra);
      var revision := LastValue(extra, ConvertRevisionExtra);
      && (r == Ok(None) <==> source != Some(GitBytes) || revision.None?)
      && (r.Err? <==>
            && source == Some(GitBytes) && revision.Some?
            && (!IsAscii(revision.value) || parseSha(AsciiText(revision.value)).None?))
      && (r.Ok? && r.value.Some? ==>
          && source == Some(GitBytes) && revision.Some? && IsAscii(revision.value)
          && parseSha(AsciiText(revision.value)) == Some(r.value.value))
  {
    var hggitSource: Option<seq<byte>> := None;
    var convertRevision: Option<seq<byte>> := None;
    for i := 0 to |extra|
      invariant hggitSource == LastValue(extra[..i], HgGitSourceExtra)
      invariant convertRevision == LastValue(extra[..i], ConvertRevisionExtra)
    {
      assert extra[..i + 1][..i] == extra[..i];
      var (key, value) := extra[i];
      if key == HgGitSourceExtra {
        hggitSource := Some(value);
      }
      if key == ConvertRevisionExtra {
        convertRevision := Some(value);
      }
    }
    assert extra[..|extra|] == extra;
    if hggitSource == Some(GitBytes) {
      if convertRevision.Some? {
        var value := convertRevision.value;
        if !IsAscii(value) {
          return Err(NotAscii(value));
        }
        var text := AsciiText(value);
        var sha := parseSha(text);
        if sha.None? {
          return Err(InvalidGitSha1(text));
        }
        return Ok(Some(sha.value));
      }
    }
    return Ok(None);
  }

  // ---------------------------------------------------------------------
  // get_many_git_sha1_by_prefix
  // ---------------------------------------------------------------------

  datatype GitSha1sResolvedFromPrefix =
    | NoMatch
    | Single(sha: GitSha1)
    | Multiple(shas: seq<GitSha1>)
    | TooMany(shas: seq<GitSha1>)

  /** The classification in `get_many_git_sha1_by_prefix`, given what
      `get_in_range(.., limit + 1)` fetched. A lone match is `Single` even
      for `limit == 0`; the `TooMany` arm drops the last fetched id. */
  function ResolvePrefix(fetched: seq<GitSha1>, limit: nat): (r: GitSha1sResolvedFromPrefix)
    ensures r.NoMatch? <==> |fetched| == 0
    ensures r.Single? <==> |fetched| == 1
    ensures r.Single? ==> r.sha == fetched[0]
    ensures r.Multiple? <==> 2 <= |fetched| <= limit
    ensures r.Multiple? ==> r.shas == fetched
    ensures r.TooMany? <==> |fetched| >= 2 && |fetched| > limit
    ensures r.TooMany? ==> r.shas + [fetched[|fetched| - 1]] == fetched
  {
    if |fetched| == 0 then NoMatch
    else if |fetched| == 1 then Single(fetched[0])
    else if |fetched| <= limit then Multiple(fetched)
    else TooMany(fetched[..|fetched| - 1])
  }

  /** When the store honours the `limit + 1` bound, no more than `limit`
      ids are ever reported in a list, and `TooMany` reports exactly the
      first `limit` fetched. */
  lemma ResolvePrefixBounded(fetched: seq<GitSha1>, limit: nat)
    requires |fetched| <= limit + 1
    ensures var r := ResolvePrefix(fetched, limit);
      && ((r.Multiple? || r.TooMany?) ==> |r.shas| <= limit)
      && (r.TooMany? ==> |fetched| == limit + 1 && r.shas == fetched[..limit])
  {
    var r := ResolvePrefix(fetched, limit);
    if r.TooMany? {
      assert (r.shas + [fetched[|fetched| - 1]])[..|r.shas|] == r.shas;
    }
  }

  // ---------------------------------------------------------------------
  // convert_all_git_to_bonsai / convert_all_bonsai_to_hg
  // ---------------------------------------------------------------------

  /** The requested ids that no row of the mapping answers. */
  function Missing<K>(requested: seq<K>, answered: seq<K>): set<K> {
    set k | k in requested && k !in answered
  }

  /** The shared shape of both conversions: the store returned `answered[i]
      -> values[i]` for the requested ids. When as many rows came back as
      ids were asked for, the values are returned as they are; otherwise
      every requested id must be answered, and the error lists the ones that
      are not. */
  method ConvertAll<K(==), V>(requested: seq<K>, answered: seq<K>, values: seq<V>) returns (r: Result<seq<V>, set<K>>)
    requires |answered| == |values|
    ensures r.Err? <==> |answered| != |requested| && Missing(requested, answered) != {}
    ensures r.Err? ==> r.error == Missing(requested, answered)
    ensures r.Ok? ==> r.value == values
  {
    if |answered| != |requested| {
      var result: seq<V> := [];
      var missing: set<K> := set k | k in requested;
      for i := 0 to |answered|
        invariant missing == set k | k in requested && k !in answered[..i]
        invariant result == values[..i]
      {
        assert answered[..i + 1] == answered[..i] + [answered[i]];
        assert values[..i + 1] == values[..i] + [values[i]];
        missing := missing - {answered[i]};
        result := result + [values[i]];
      }
      assert answered[..|answered|] == answered;
      assert values[..|values|] == values;
      if missing != {} {
        return Err(missing);
      }
      return Ok(result);
    } else {
      return Ok(values);
    }
  }

  function GitShas(mapping: seq<BonsaiGitMappingEntry>): (s: seq<GitSha1>)
    ensures |s| == |mapping| && forall i :: 0 <= i < |s| ==> s[i] == mapping[i].gitSha1
  {
    if mapping == [] then [] else [mapping[0].gitSha1] + GitShas(mapping[1..])
  }

  function BcsIds(mapping: seq<BonsaiGitMappingEntry>): (s: seq<ChangesetId>)
    ensures |s| == |mapping| && forall i :: 0 <= i < |s| ==> s[i] == mapping[i].bcsId
  {
    if mapping == [] then [] else [mapping[0].bcsId] + BcsIds(mapping[1..])
  }

  /** `convert_all_git_to_bonsai`, given the rows `get` returned: an error
      exactly when fewer or more rows came back than ids were asked for and
      some requested git id has no row; otherwise the rows' changeset ids in
      the store's order. */
  method ConvertAllGitToBonsai(gitSha1s: seq<GitSha1>, mapping: seq<BonsaiGitMappingEntry>)
    returns (r: Result<seq<ChangesetId>, set<GitSha1>>)
    ensures r.Err? <==> |mapping| != |gitSha1s| && exists s :: s in gitSha1s && s !in GitShas(mapping)
    ensures r.Err? ==> forall s :: s in r.error <==> s in gitSha1s && s !in GitShas(mapping)
    ensures r.Ok? ==> |r.value| == |mapping| && forall i :: 0 <= i < |mapping| ==> r.value[i] == mapping[i].bcsId
  {
    r := ConvertAll(gitSha1s, GitShas(mapping), BcsIds(mapping));
    if r.Err? {
      assert forall s :: s in r.error <==> s in gitSha1s && s !in GitShas(mapping);
    } else if |mapping| != |gitSha1s| {
      assert Missing(gitSha1s, GitShas(mapping)) == {};
      assert forall s :: s in gitSha1s ==> s in Missing(gitSha1s, GitShas(mapping)) || s in GitShas(mapping);
    }
  }

  /** `convert_all_bonsai_to_hg` (which returns git ids): the same rule with
      the roles of the two ids swapped. */
  method ConvertAllBonsaiToHg(bcsIds: seq<ChangesetId>, mapping: seq<BonsaiGitMappingEntry>)
    returns (r: Result<seq<GitSha1>, set<ChangesetId>>)
    ensures r.Err? <==> |mapping| != |bcsIds| && exists c :: c in bcsIds && c !in BcsIds(mapping)
    ensures r.Err? ==> forall c :: c in r.error <==> c in bcsIds && c !in BcsIds(mapping)
    ensures r.Ok? ==> |r.value| == |mapping| && forall i :: 0 <= i < |mapping| ==> r.value[i] == mapping[i].gitSha1
  {
    r := ConvertAll(bcsIds, BcsIds(mapping), GitShas(mapping));
    if r.Err? {
      assert forall c :: c in r.error <==> c in bcsIds && c !in BcsIds(mapping);
    } else if |mapping| != |bcsIds| {
      assert Missing(bcsIds, BcsIds(mapping)) == {};
      assert forall c :: c in bcsIds ==> c in Missing(bcsIds, BcsIds(mapping)) || c in BcsIds(mapping);
    }
  }
}
