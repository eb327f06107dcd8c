/** A learner's playlists: creating one and adding the selected reel. */
module Playlists {
  import opened Wrappers
  import opened Seqs
  import opened Text
  import opened Entities

  /** The playlist screen is only offered to a logged-in learner. */
  predicate IsLearner(current: Option<User>) {
    current.Some? && current.value.role == Learner
  }

  /** The create handler's updater: append the new playlist. */
  function AppendPlaylist(p: Playlist): User -> User {
    (u: User) => u.(playlists := u.playlists + [p])
  }

  /** "Create": for a learner and a name that is not blank after trimming,
      append a playlist with the fresh id, the trimmed name and no reels. */
  function CreatePlaylist(users: seq<User>, currentUserId: Id, freshId: Id, name: string): (r: seq<User>)
    ensures |r| == |users|
    ensures !IsLearner(FindUser(users, currentUserId)) || IsBlank(name) ==> r == users
    ensures IsLearner(FindUser(users, currentUserId)) && !IsBlank(name) ==>
      forall i :: 0 <= i < |users| ==>
        if users[i].id == currentUserId then
          && r[i] == users[i].(playlists := r[i].playlists)
          && |r[i].playlists| == |users[i].playlists| + 1
          && r[i].playlists[..|users[i].playlists|] == users[i].playlists
          && r[i].playlists[|users[i].playlists|] == Playlist(freshId, Trim(name), [])
        else r[i] == users[i]
  {
    var current := FindUser(users, currentUserId);
    if !IsLearner(current) then users
    else
      var t := Trim(name);
      if t == [] then users
      else
        var r := ReplaceById(users, UserKey, current.value.id, AppendPlaylist(Playlist(freshId, t, [])));
        assert forall i :: 0 <= i < |users| && users[i].id == currentUserId ==>
          r[i].playlists[..|users[i].playlists|] == users[i].playlists;
        r
  }

  /** Every playlist has a non-empty trimmed name and no reel twice, and no
      two playlists share an id. */
  predicate PlaylistsWellFormed(pls: seq<Playlist>) {
    && (forall p :: p in pls ==> p.name != [] && IsTrimmed(p.name) && NoDup(p.reelIds))
    && (forall i, j :: 0 <= i < j < |pls| ==> pls[i].id != pls[j].id)
  }

  /** Creating a playlist with a fresh id keeps the learner's playlists
      well formed. */
  lemma CreatePlaylistKeepsWellFormed(users: seq<User>, currentUserId: Id, freshId: Id, name: string, i: nat)
    requires i < |users| && PlaylistsWellFormed(users[i].playlists)
    requires forall p :: p in users[i].playlists ==> p.id != freshId
    ensures PlaylistsWellFormed(CreatePlaylist(users, currentUserId, freshId, name)[i].playlists)
  {
    var r := CreatePlaylist(users, currentUserId, freshId, name);
    var before := users[i].playlists;
    if r[i] != users[i] {
      assert r[i].playlists == before + [Playlist(freshId, Trim(name), [])];
      forall a, b | 0 <= a < b < |r[i].playlists| ensures r[i].playlists[a].id != r[i].playlists[b].id {
        if b == |before| {
          assert before[a] in before;
        }
      }
    }
  }

  /** The add handler's map over a learner's playlists: the playlist with
      this id gains the reel at its end unless it already holds it. */
  function AddReel(pls: seq<Playlist>, playlistId: Id, reelId: Id): (r: seq<Playlist>)
    ensures |r| == |pls|
    ensures forall i :: 0 <= i < |pls| ==>
      && r[i] == pls[i].(reelIds := r[i].reelIds)
      && r[i].reelIds == if pls[i].id == playlistId && reelId !in pls[i].reelIds
                         then pls[i].reelIds + [reelId] else pls[i].reelIds
  {
    if |pls| == 0 then []
    else
      var p := pls[0];
      [if p.id == playlistId && reelId !in p.reelIds then p.(reelIds := p.reelIds + [reelId]) else p]
      + AddReel(pls[1..], playlistId, reelId)
  }

  /** Adding the same reel twice is adding it once. */
  lemma AddReelIdempotent(pls: seq<Playlist>, playlistId: Id, reelId: Id)
    ensures AddReel(AddReel(pls, playlistId, reelId), playlistId, reelId) == AddReel(pls, playlistId, reelId)
  {
    var once := AddReel(pls, playlistId, reelId);
    var twice := AddReel(once, playlistId, reelId);
    forall i | 0 <= i < |pls| ensures twice[i] == once[i] {
    }
  }

  /** After adding, the target playlist holds the reel exactly once, if it
      did not hold it twice before, and each playlist keeps its reels free of
      duplicates. */
  lemma AddReelOnce(pls: seq<Playlist>, playlistId: Id, reelId: Id, i: nat)
    requires i < |pls| && pls[i].id == playlistId
    requires multiset(pls[i].reelIds)[reelId] <= 1
    ensures multiset(AddReel(pls, playlistId, reelId)[i].reelIds)[reelId] == 1
  {
  }

  /** Adding keeps every playlist's reels free of duplicates. */
  lemma AddReelKeepsNoDup(pls: seq<Playlist>, playlistId: Id, reelId: Id)
    requires forall p :: p in pls ==> NoDup(p.reelIds)
    ensures forall p :: p in AddReel(pls, playlistId, reelId) ==> NoDup(p.reelIds)
  {
    var r := AddReel(pls, playlistId, reelId);
    forall p | p in r ensures NoDup(p.reelIds) {
      var i :| 0 <= i < |r| && r[i] == p;
      assert pls[i] in pls;
      if p.reelIds != pls[i].reelIds {
        AppendNoDup(pls[i].reelIds, reelId);
      }
    }
  }

  /** The add handler's updater. */
  function AddReelBy(playlistId: Id, reelId: Id): User -> User {
    (u: User) => u.(playlists := AddReel(u.playlists, playlistId, reelId))
  }

  /** "Add selected reel": for a learner with a reel selected (the empty
      selection is a no-op), add it to the playlist with this id. */
  function AddReelToPlaylist(users: seq<User>, currentUserId: Id, playlistId: Id, reelId: Id): (r: seq<User>)
    ensures |r| == |users|
    ensures !IsLearner(FindUser(users, currentUserId)) || reelId == [] ==> r == users
    ensures IsLearner(FindUser(users, currentUserId)) && reelId != [] ==>
      forall i :: 0 <= i < |users| ==>
        r[i] == if users[i].id == currentUserId
                then users[i].(playlists := AddReel(users[i].playlists, playlistId, reelId))
                else users[i]
  {
    var current := FindUser(users, currentUserId);
    if !IsLearner(current) || reelId == [] then users
    else ReplaceById(users, UserKey, current.value.id, AddReelBy(playlistId, reelId))
  }

  /** Adding the same selection twice leaves the users as after once. */
  lemma AddReelToPlaylistIdempotent(users: seq<User>, currentUserId: Id, playlistId: Id, reelId: Id)
    ensures var once := AddReelToPlaylist(users, currentUserId, playlistId, reelId);
      AddReelToPlaylist(once, currentUserId, playlistId, reelId) == once
  {
    var current := FindUser(users, currentUserId);
    if IsLearner(current) && reelId != [] {
      var f := AddReelBy(playlistId, reelId);
      forall u ensures f(u).id == u.id && f(f(u)) == f(u) {
        AddReelIdempotent(u.playlists, playlistId, reelId);
      }
      FindAfterReplace(users, currentUserId, f);
      ReplaceTwice(users, UserKey, currentUserId, f);
    }
  }
}
