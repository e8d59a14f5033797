/** The request handlers of the music API, over an in-memory store of the
    three tables. Every handler is atomic: when it fails it returns before
    changing anything, which is what its commit-or-rollback achieves. Tables
    are scanned in ascending id order, the order of a table scan. */
module Resources {
  import opened Options
  import opened Strings
  import opened Models

  /** The table in which a looked-up row was missing (HTTP 404). */
  datatype Table = UserTable | SongTable | FavoriteTable

  /** Why a write was refused (HTTP 400). */
  datatype ConflictKind = EmailRegistered | AlreadyFavorite

  /** What a handler answers. */
  datatype Outcome<T> = Ok(value: T) | NotFound(table: Table) | Conflict(kind: ConflictKind)

  /** A row together with its primary key. */
  datatype Row<T> = Row(id: int, record: T)

  /** The rows of `table` with ids in [lo, hi) whose record satisfies `keep`,
      in ascending id order: a filtered table scan. */
  function RowsWhere<T>(table: map<int, T>, lo: int, hi: int, keep: T -> bool): (r: seq<Row<T>>)
    ensures forall i, j :: 0 <= i < j < |r| ==> r[i].id < r[j].id
    ensures forall k :: 0 <= k < |r| ==>
      lo <= r[k].id < hi && r[k].id in table && r[k].record == table[r[k].id] && keep(r[k].record)
    ensures forall id :: lo <= id < hi && id in table && keep(table[id]) ==>
      exists k :: 0 <= k < |r| && r[k].id == id
    decreases hi - lo
  {
    if hi <= lo then []
    else
      var rest := RowsWhere(table, lo + 1, hi, keep);
      if lo in table && keep(table[lo]) then
        var r := [Row(lo, table[lo])] + rest;
        RowsWhereCons(table, lo, hi, keep, rest, r);
        r
      else rest
  }

  lemma RowsWhereCons<T>(table: map<int, T>, lo: int, hi: int, keep: T -> bool, rest: seq<Row<T>>, r: seq<Row<T>>)
    requires lo < hi && lo in table && keep(table[lo]) && r == [Row(lo, table[lo])] + rest
    requires forall i, j :: 0 <= i < j < |rest| ==> rest[i].id < rest[j].id
    requires forall k :: 0 <= k < |rest| ==>
      lo + 1 <= rest[k].id < hi && rest[k].id in table && rest[k].record == table[rest[k].id] && keep(rest[k].record)
    requires forall id :: lo + 1 <= id < hi && id in table && keep(table[id]) ==>
      exists k :: 0 <= k < |rest| && rest[k].id == id
    ensures forall i, j :: 0 <= i < j < |r| ==> r[i].id < r[j].id
    ensures forall k :: 0 <= k < |r| ==>
      lo <= r[k].id < hi && r[k].id in table && r[k].record == table[r[k].id] && keep(r[k].record)
    ensures forall id :: lo <= id < hi && id in table && keep(table[id]) ==>
      exists k :: 0 <= k < |r| && r[k].id == id
  {
    forall k | 0 <= k < |rest| ensures r[k + 1] == rest[k] { }
    forall id | lo <= id < hi && id in table && keep(table[id])
      ensures exists k :: 0 <= k < |r| && r[k].id == id
    {
      if id == lo {
        assert r[0].id == lo;
      } else {
        var k :| 0 <= k < |rest| && rest[k].id == id;
        assert r[k + 1].id == id;
      }
    }
  }

  // ------------------------------------------------------------ partial updates

  /** The body of a PUT on a user; an absent key keeps the old value. */
  datatype UserPatch = UserPatch(name: Option<string>, email: Option<string>)

  function ApplyUserPatch(u: User, p: UserPatch): (r: User)
    ensures r.registeredAt == u.registeredAt
    ensures p.name.None? ==> r.name == u.name
    ensures p.email.None? ==> r.email == u.email
    ensures p.name.Some? ==> r.name == p.name.value
    ensures p.email.Some? ==> r.email == p.email.value
  {
    u.(name := p.name.GetOr(u.name), email := p.email.GetOr(u.email))
  }

  /** The body of a PUT on a song. For a nullable column the key may be
      present with a null value, `Some(None)`, which clears the column. */
  datatype SongPatch = SongPatch(
    title: Option<string>,
    artist: Option<string>,
    album: Option<Option<string>>,
    duration: Option<Option<int>>,
    year: Option<Option<int>>,
    genre: Option<Option<string>>)

  function ApplySongPatch(s: Song, p: SongPatch): (r: Song)
    ensures r.createdAt == s.createdAt
    ensures p.title.None? ==> r.title == s.title
    ensures p.artist.None? ==> r.artist == s.artist
    ensures p.album.None? ==> r.album == s.album
    ensures p.duration.None? ==> r.duration == s.duration
    ensures p.year.None? ==> r.year == s.year
    ensures p.genre.None? ==> r.genre == s.genre
    ensures p.title.Some? ==> r.title == p.title.value
    ensures p.artist.Some? ==> r.artist == p.artist.value
    ensures p.album.Some? ==> r.album == p.album.value
    ensures p.duration.Some? ==> r.duration == p.duration.value
    ensures p.year.Some? ==> r.year == p.year.value
    ensures p.genre.Some? ==> r.genre == p.genre.value
  {
    s.(title := p.title.GetOr(s.title),
       artist := p.artist.GetOr(s.artist),
       album := p.album.GetOr(s.album),
       duration := p.duration.GetOr(s.duration),
       year := p.year.GetOr(s.year),
       genre := p.genre.GetOr(s.genre))
  }

  /** A PUT is idempotent, and an empty body changes nothing. */
  lemma PatchesIdempotent(u: User, up: UserPatch, s: Song, sp: SongPatch)
    ensures ApplyUserPatch(ApplyUserPatch(u, up), up) == ApplyUserPatch(u, up)
    ensures ApplySongPatch(ApplySongPatch(s, sp), sp) == ApplySongPatch(s, sp)
    ensures ApplyUserPatch(u, UserPatch(None, None)) == u
    ensures ApplySongPatch(s, SongPatch(None, None, None, None, None, None)) == s
  {
  }

  // ----------------------------------------------------------------- search

  /** The query string of a song search; each argument may be missing. */
  datatype SongQuery = SongQuery(title: Option<string>, artist: Option<string>, genre: Option<string>)

  /** A query argument filters only when present and non-empty (`if titulo:`). */
  predicate Given(arg: Option<string>) {
    arg.Some? && arg.value != ""
  }

  /** `column ILIKE '%term%'`, with ASCII case folding. */
  predicate ContainsIgnoringCase(text: string, term: string) {
    Contains(ToLower(text), ToLower(term))
  }

  /** The conjunction of the filters the search chains onto the query. A NULL
      genre never equals the requested one. */
  predicate SongMatches(s: Song, q: SongQuery) {
    && (Given(q.title) ==> ContainsIgnoringCase(s.title, q.title.value))
    && (Given(q.artist) ==> ContainsIgnoringCase(s.artist, q.artist.value))
    && (Given(q.genre) ==> s.genre == Some(q.genre.value))
  }

  /** A missing or empty argument imposes nothing, and the three filters
      combine by conjunction. */
  lemma FilterSemantics(s: Song, q: SongQuery)
    ensures SongMatches(s, SongQuery(None, None, None))
    ensures SongMatches(s, q.(title := Some(""))) == SongMatches(s, q.(title := None))
    ensures SongMatches(s, q.(artist := Some(""))) == SongMatches(s, q.(artist := None))
    ensures SongMatches(s, q.(genre := Some(""))) == SongMatches(s, q.(genre := None))
    ensures SongMatches(s, q) <==>
      && SongMatches(s, SongQuery(q.title, None, None))
      && SongMatches(s, SongQuery(None, q.artist, None))
      && SongMatches(s, SongQuery(None, None, q.genre))
  {
  }

  /** The title and artist filters cannot tell apart texts, or terms, that
      differ only in the case of ASCII letters. */
  lemma IlikeIgnoresCase(text: string, text': string, term: string, term': string)
    requires EqualIgnoringCase(text, text') && EqualIgnoringCase(term, term')
    ensures ContainsIgnoringCase(text, term) == ContainsIgnoringCase(text', term')
  {
    ToLowerAgrees(text, text');
    ToLowerAgrees(term, term');
  }

  /** Title and artist match whatever the case of either side; the genre
      filter is exact. */
  lemma FilterExamples()
    ensures ContainsIgnoringCase("Canción Test 1", "TEST")
    ensures !SongMatches(Song("t", "a", None, None, None, Some("Rock"), 0), SongQuery(None, None, Some("rock")))
  {
    var lowered := ToLower("Canción Test 1");
    var term := ToLower("TEST");
    assert term == "test" by {
      assert term[0] == 't' && term[1] == 'e' && term[2] == 's' && term[3] == 't';
    }
    assert lowered[8..12] == "test" by {
      assert lowered[8] == 't' && lowered[9] == 'e' && lowered[10] == 's' && lowered[11] == 't';
    }
    assert OccursAt(lowered, term, 8);
  }

  // -------------------------------------------------------------- favorites

  /** A song as listed among a user's favorites. */
  datatype SongSummary = SongSummary(id: int, title: string, artist: string)

  /** The answer of the user-favorites listing. */
  datatype UserFavoritesView = UserFavoritesView(userId: int, userName: string, songs: seq<SongSummary>)

  /** The songs of a user's favorites: one entry per favorite of the user,
      and no song twice. The query that lists them has no ORDER BY, so their
      order is the database's; this model lists them in favorite id order. */
  function FavoriteSongs(favorites: map<int, Favorite>, songs: map<int, Song>, next: int, userId: int): (r: seq<SongSummary>)
    requires KeysBelow(favorites, next) && PairsUnique(favorites)
    requires forall id :: id in favorites ==> favorites[id].songId in songs
    ensures forall k :: 0 <= k < |r| ==>
      && PairTaken(favorites, userId, r[k].id)
      && r[k].id in songs && r[k].title == songs[r[k].id].title && r[k].artist == songs[r[k].id].artist
    ensures forall id :: id in favorites && favorites[id].userId == userId ==>
      exists k :: 0 <= k < |r| && r[k].id == favorites[id].songId
    ensures forall i, j :: 0 <= i < j < |r| ==> r[i].id != r[j].id
  {
    var rows := RowsWhere(favorites, 1, next, (f: Favorite) => f.userId == userId);
    var r := Summaries(rows, songs);
    FavoriteSongsFacts(favorites, songs, next, userId, rows, r);
    r
  }

  /** The song of each favorite row, as the listing shows it. */
  function Summaries(rows: seq<Row<Favorite>>, songs: map<int, Song>): (r: seq<SongSummary>)
    requires forall k :: 0 <= k < |rows| ==> rows[k].record.songId in songs
    ensures |r| == |rows|
    ensures forall k :: 0 <= k < |r| ==>
      && r[k].id == rows[k].record.songId
      && r[k].title == songs[r[k].id].title && r[k].artist == songs[r[k].id].artist
  {
    seq(|rows|, k requires 0 <= k < |rows| =>
      var song := songs[rows[k].record.songId];
      SongSummary(rows[k].record.songId, song.title, song.artist))
  }

  lemma FavoriteSongsFacts(
    favorites: map<int, Favorite>, songs: map<int, Song>, next: int, userId: int,
    rows: seq<Row<Favorite>>, r: seq<SongSummary>)
    requires KeysBelow(favorites, next) && PairsUnique(favorites)
    requires forall i, j :: 0 <= i < j < |rows| ==> rows[i].id < rows[j].id
    requires forall k :: 0 <= k < |rows| ==>
      rows[k].id in favorites && rows[k].record == favorites[rows[k].id] && rows[k].record.userId == userId
    requires forall id :: 1 <= id < next && id in favorites && favorites[id].userId == userId ==>
      exists k :: 0 <= k < |rows| && rows[k].id == id
    requires |r| == |rows|
    requires forall k :: 0 <= k < |r| ==> r[k].id == rows[k].record.songId
    ensures forall k :: 0 <= k < |r| ==> PairTaken(favorites, userId, r[k].id)
    ensures forall id :: id in favorites && favorites[id].userId == userId ==>
      exists k :: 0 <= k < |r| && r[k].id == favorites[id].songId
    ensures forall i, j :: 0 <= i < j < |r| ==> r[i].id != r[j].id
  {
    forall k | 0 <= k < |r| ensures PairTaken(favorites, userId, r[k].id) {
      assert favorites[rows[k].id] == rows[k].record;
    }
    forall id | id in favorites && favorites[id].userId == userId
      ensures exists k :: 0 <= k < |r| && r[k].id == favorites[id].songId
    {
      var k :| 0 <= k < |rows| && rows[k].id == id;
      assert r[k].id == favorites[id].songId;
    }
    forall i, j | 0 <= i < j < |r| ensures r[i].id != r[j].id {
      assert rows[i].id != rows[j].id;
      assert favorites[rows[i].id].userId == userId == favorites[rows[j].id].userId;
    }
  }

  // ------------------------------------------------------------------ store

  class MusicStore {
    var users: map<int, User>
    var songs: map<int, Song>
    var favorites: map<int, Favorite>
    /** The id the next insert into each table receives. */
    var nextUserId: int
    var nextSongId: int
    var nextFavoriteId: int

    ghost predicate Valid()
      reads this
    {
      && 1 <= nextUserId && 1 <= nextSongId && 1 <= nextFavoriteId
      && KeysBelow(users, nextUserId)
      && KeysBelow(songs, nextSongId)
      && KeysBelow(favorites, nextFavoriteId)
      && Consistent(users, songs, favorites)
    }

    /** An empty database. */
    constructor ()
      ensures Valid()
      ensures users == map[] && songs == map[] && favorites == map[]
      ensures nextUserId == 1 && nextSongId == 1 && nextFavoriteId == 1
    {
      users, songs, favorites := map[], map[], map[];
      nextUserId, nextSongId, nextFavoriteId := 1, 1, 1;
    }

    // ---------------------------------------------------------------- users

    /** POST /usuarios. */
    method CreateUser(name: string, email: string, now: Timestamp) returns (r: Outcome<int>)
      requires Valid()
      modifies this
      ensures Valid()
      ensures r.Ok? <==> !old(EmailTaken(users, email))
      ensures !r.Ok? ==> r == Conflict(EmailRegistered) && unchanged(this)
      ensures r.Ok? ==>
        && r.value == old(nextUserId) && r.value !in old(users)
        && users == old(users)[r.value := User(name, email, now)]
        && nextUserId == old(nextUserId) + 1
        && songs == old(songs) && favorites == old(favorites)
        && nextSongId == old(nextSongId) && nextFavoriteId == old(nextFavoriteId)
    {
      if EmailTaken(users, email) {
        return Conflict(EmailRegistered);
      }
      r := Ok(nextUserId);
      users := users[nextUserId := User(name, email, now)];
      nextUserId := nextUserId + 1;
    }

    /** PUT /usuarios/{id}: a new `correo` held by another user is refused;
        re-sending the user's own `correo` is not a change. */
    method UpdateUser(id: int, patch: UserPatch) returns (r: Outcome<User>)
      requires Valid()
      modifies this
      ensures Valid()
      ensures id !in old(users) ==> r == NotFound(UserTable)
      ensures r.Ok? <==>
        && id in old(users)
        && !(patch.email.Some? && patch.email.value != old(users[id].email) && old(EmailTaken(users, patch.email.value)))
      ensures id in old(users) ==>
        (r == Conflict(EmailRegistered) <==>
          patch.email.Some? && patch.email.value != old(users[id].email) && old(EmailTaken(users, patch.email.value)))
      ensures !r.Ok? ==> unchanged(this)
      ensures r.Ok? ==>
        && id in old(users)
        && r.value == ApplyUserPatch(old(users[id]), patch)
        && users == old(users)[id := r.value]
        && songs == old(songs) && favorites == old(favorites)
        && nextUserId == old(nextUserId) && nextSongId == old(nextSongId) && nextFavoriteId == old(nextFavoriteId)
    {
      if id !in users {
        return NotFound(UserTable);
      }
      if patch.email.Some? && patch.email.value != users[id].email && EmailTaken(users, patch.email.value) {
        return Conflict(EmailRegistered);
      }
      var updated := ApplyUserPatch(users[id], patch);
      users := users[id := updated];
      r := Ok(updated);
    }

    /** DELETE /usuarios/{id}: the user goes, and with it exactly its favorites. */
    method DeleteUser(id: int) returns (r: Outcome<()>)
      requires Valid()
      modifies this
      ensures Valid()
      ensures r.Ok? <==> id in old(users)
      ensures !r.Ok? ==> r == NotFound(UserTable) && unchanged(this)
      ensures r.Ok? ==>
        && users == old(users) - {id}
        && favorites == DropUserFavorites(old(favorites), id)
        && songs == old(songs)
        && nextUserId == old(nextUserId) && nextSongId == old(nextSongId) && nextFavoriteId == old(nextFavoriteId)
    {
      if id !in users {
        return NotFound(UserTable);
      }
      DeleteUserKeepsConsistent(users, songs, favorites, id);
      users := users - {id};
      favorites := DropUserFavorites(favorites, id);
      r := Ok(());
    }

    // ---------------------------------------------------------------- songs

    /** POST /canciones: no constraint can refuse a song. */
    method CreateSong(
      title: string, artist: string, album: Option<string>, duration: Option<int>,
      year: Option<int>, genre: Option<string>, now: Timestamp) returns (id: int)
      requires Valid()
      modifies this
      ensures Valid()
      ensures id == old(nextSongId) && id !in old(songs)
      ensures songs == old(songs)[id := Song(title, artist, album, duration, year, genre, now)]
      ensures nextSongId == old(nextSongId) + 1
      ensures users == old(users) && favorites == old(favorites)
      ensures nextUserId == old(nextUserId) && nextFavoriteId == old(nextFavoriteId)
    {
      id := nextSongId;
      songs := songs[id := Song(title, artist, album, duration, year, genre, now)];
      nextSongId := nextSongId + 1;
    }

    /** PUT /canciones/{id}. */
    method UpdateSong(id: int, patch: SongPatch) returns (r: Outcome<Song>)
      requires Valid()
      modifies this
      ensures Valid()
      ensures r.Ok? <==> id in old(songs)
      ensures !r.Ok? ==> r == NotFound(SongTable) && unchanged(this)
      ensures r.Ok? ==>
        && r.value == ApplySongPatch(old(songs[id]), patch)
        && songs == old(songs)[id := r.value]
        && users == old(users) && favorites == old(favorites)
        && nextUserId == old(nextUserId) && nextSongId == old(nextSongId) && nextFavoriteId == old(nextFavoriteId)
    {
      if id !in songs {
        return NotFound(SongTable);
      }
      var updated := ApplySongPatch(songs[id], patch);
      songs := songs[id := updated];
      r := Ok(updated);
    }

    /** DELETE /canciones/{id}: the song goes, and with it exactly its favorites. */
    method DeleteSong(id: int) returns (r: Outcome<()>)
      requires Valid()
      modifies this
      ensures Valid()
      ensures r.Ok? <==> id in old(songs)
      ensures !r.Ok? ==> r == NotFound(SongTable) && unchanged(this)
      ensures r.Ok? ==>
        && songs == old(songs) - {id}
        && favorites == DropSongFavorites(old(favorites), id)
        && users == old(users)
        && nextUserId == old(nextUserId) && nextSongId == old(nextSongId) && nextFavoriteId == old(nextFavoriteId)
    {
      if id !in songs {
        return NotFound(SongTable);
      }
      DeleteSongKeepsConsistent(users, songs, favorites, id);
      songs := songs - {id};
      favorites := DropSongFavorites(favorites, id);
      r := Ok(());
    }

    /** GET /canciones/buscar: exactly the songs passing every given filter,
        each once, in id order. */
    function Search(q: SongQuery): (r: seq<Row<Song>>)
      reads this
      requires Valid()
      ensures forall i, j :: 0 <= i < j < |r| ==> r[i].id < r[j].id
      ensures forall k :: 0 <= k < |r| ==>
        r[k].id in songs && r[k].record == songs[r[k].id] && SongMatches(r[k].record, q)
      ensures forall id :: id in songs && SongMatches(songs[id], q) ==>
        exists k :: 0 <= k < |r| && r[k].id == id
    {
      RowsWhere(songs, 1, nextSongId, (s: Song) => SongMatches(s, q))
    }

    // ------------------------------------------------------------ favorites

    /** POST /favoritos: the user is looked for first, then the song, then
        the pair. */
    method CreateFavorite(userId: int, songId: int, now: Timestamp) returns (r: Outcome<int>)
      requires Valid()
      modifies this
      ensures Valid()
      ensures userId !in old(users) ==> r == NotFound(UserTable)
      ensures userId in old(users) && songId !in old(songs) ==> r == NotFound(SongTable)
      ensures userId in old(users) && songId in old(songs) && old(PairTaken(favorites, userId, songId)) ==>
        r == Conflict(AlreadyFavorite)
      ensures r.Ok? <==> userId in old(users) && songId in old(songs) && !old(PairTaken(favorites, userId, songId))
      ensures !r.Ok? ==> unchanged(this)
      ensures r.Ok? ==>
        && r.value == old(nextFavoriteId) && r.value !in old(favorites)
        && favorites == old(favorites)[r.value := Favorite(userId, songId, now)]
        && nextFavoriteId == old(nextFavoriteId) + 1
        && users == old(users) && songs == old(songs)
        && nextUserId == old(nextUserId) && nextSongId == old(nextSongId)
    {
      if userId !in users {
        return NotFound(UserTable);
      }
      if songId !in songs {
        return NotFound(SongTable);
      }
      if PairTaken(favorites, userId, songId) {
        return Conflict(AlreadyFavorite);
      }
      r := Ok(nextFavoriteId);
      favorites := favorites[nextFavoriteId := Favorite(userId, songId, now)];
      nextFavoriteId := nextFavoriteId + 1;
    }

    /** GET /favoritos/{id}. */
    function GetFavorite(id: int): (r: Outcome<Favorite>)
      reads this
      ensures r.Ok? <==> id in favorites
      ensures r.Ok? ==> r.value == favorites[id]
      ensures !r.Ok? ==> r == NotFound(FavoriteTable)
    {
      if id in favorites then Ok(favorites[id]) else NotFound(FavoriteTable)
    }

    /** DELETE /favoritos/{id}. */
    method DeleteFavorite(id: int) returns (r: Outcome<()>)
      requires Valid()
      modifies this
      ensures Valid()
      ensures r.Ok? <==> id in old(favorites)
      ensures !r.Ok? ==> r == NotFound(FavoriteTable) && unchanged(this)
      ensures r.Ok? ==>
        && favorites == old(favorites) - {id}
        && users == old(users) && songs == old(songs)
        && nextUserId == old(nextUserId) && nextSongId == old(nextSongId) && nextFavoriteId == old(nextFavoriteId)
    {
      if id !in favorites {
        return NotFound(FavoriteTable);
      }
      favorites := favorites - {id};
      r := Ok(());
    }

    /** GET /usuarios/{id}/favoritos: the user's id and name, and one entry
        per favorite of the user, carrying the song's id, title and artist. */
    function UserFavorites(userId: int): (r: Outcome<UserFavoritesView>)
      reads this
      requires Valid()
      ensures r.Ok? <==> userId in users
      ensures !r.Ok? ==> r == NotFound(UserTable)
      ensures r.Ok? ==> r.value.userId == userId && r.value.userName == users[userId].name
      ensures r.Ok? ==> forall k :: 0 <= k < |r.value.songs| ==>
        var e := r.value.songs[k];
        && PairTaken(favorites, userId, e.id)
        && e.id in songs && e.title == songs[e.id].title && e.artist == songs[e.id].artist
      ensures r.Ok? ==> forall id :: id in favorites && favorites[id].userId == userId ==>
        exists k :: 0 <= k < |r.value.songs| && r.value.songs[k].id == favorites[id].songId
      ensures r.Ok? ==> forall i, j :: 0 <= i < j < |r.value.songs| ==> r.value.songs[i].id != r.value.songs[j].id
    {
      if userId !in users then NotFound(UserTable)
      else
        var listed := FavoriteSongs(favorites, songs, nextFavoriteId, userId);
        Ok(UserFavoritesView(userId, users[userId].name, listed))
    }

    /** POST /usuarios/{id_usuario}/favoritos/{id_cancion}: the same checks, in
        the same order, as the body form; it answers only with a message. */
    method MarkFavorite(userId: int, songId: int, now: Timestamp) returns (r: Outcome<()>)
      requires Valid()
      modifies this
      ensures Valid()
      ensures userId !in old(users) ==> r == NotFound(UserTable)
      ensures userId in old(users) && songId !in old(songs) ==> r == NotFound(SongTable)
      ensures userId in old(users) && songId in old(songs) && old(PairTaken(favorites, userId, songId)) ==>
        r == Conflict(AlreadyFavorite)
      ensures r.Ok? <==> userId in old(users) && songId in old(songs) && !old(PairTaken(favorites, userId, songId))
      ensures !r.Ok? ==> unchanged(this)
      ensures r.Ok? ==>
        && old(nextFavoriteId) !in old(favorites)
        && favorites == old(favorites)[old(nextFavoriteId) := Favorite(userId, songId, now)]
        && nextFavoriteId == old(nextFavoriteId) + 1
        && users == old(users) && songs == old(songs)
        && nextUserId == old(nextUserId) && nextSongId == old(nextSongId)
    {
      var created := CreateFavorite(userId, songId, now);
      r := match created
        case Ok(_) => Ok(())
        case NotFound(t) => NotFound(t)
        case Conflict(c) => Conflict(c);
    }

    /** DELETE /usuarios/{id_usuario}/favoritos/{id_cancion}: removes the one
        favorite holding the pair. */
    method UnmarkFavorite(userId: int, songId: int) returns (r: Outcome<()>)
      requires Valid()
      modifies this
      ensures Valid()
      ensures r.Ok? <==> old(PairTaken(favorites, userId, songId))
      ensures !r.Ok? ==> r == NotFound(FavoriteTable) && unchanged(this)
      ensures r.Ok? ==>
        && !PairTaken(favorites, userId, songId)
        && (exists id ::
             && id in old(favorites)
             && old(favorites)[id].userId == userId && old(favorites)[id].songId == songId
             && favorites == old(favorites) - {id})
        && users == old(users) && songs == old(songs)
        && nextUserId == old(nextUserId) && nextSongId == old(nextSongId) && nextFavoriteId == old(nextFavoriteId)
    {
      if !PairTaken(favorites, userId, songId) {
        return NotFound(FavoriteTable);
      }
      var id :| id in favorites && favorites[id].userId == userId && favorites[id].songId == songId;
      favorites := favorites - {id};
      r := Ok(());
    }
  }

  /** The fixture of the API's unit tests: two users, two songs, and the
      first song marked favorite by the first user. */
  method Fixture() returns (store: MusicStore)
    ensures fresh(store) && store.Valid()
    ensures store.users == map[1 := User("Usuario Test 1", "usuario1@test.com", 0),
                               2 := User("Usuario Test 2", "usuario2@test.com", 0)]
    ensures store.songs == map[1 := Song("Canción Test 1", "Artista Test 1", Some("Album Test 1"), Some(180), Some(2020), Some("Rock"), 0),
                               2 := Song("Canción Test 2", "Artista Test 2", Some("Album Test 2"), Some(240), Some(2021), Some("Pop"), 0)]
    ensures store.favorites == map[1 := Favorite(1, 1, 0)]
    ensures store.nextUserId == 3 && store.nextSongId == 3 && store.nextFavoriteId == 2
  {
    store := new MusicStore();
    var u1 := store.CreateUser("Usuario Test 1", "usuario1@test.com", 0);
    var u2 := store.CreateUser("Usuario Test 2", "usuario2@test.com", 0);
    var s1 := store.CreateSong("Canción Test 1", "Artista Test 1", Some("Album Test 1"), Some(180), Some(2020), Some("Rock"), 0);
    var s2 := store.CreateSong("Canción Test 2", "Artista Test 2", Some("Album Test 2"), Some(240), Some(2021), Some("Pop"), 0);
    assert !PairTaken(store.favorites, 1, 1);
    var f := store.CreateFavorite(1, 1, 0);
  }

  /** A new user receives the third id; its e-mail cannot be registered twice. */
  method CreateUserScenario() {
    var store := Fixture();
    var u3 := store.CreateUser("Usuario Nuevo", "nuevo@test.com", 0);
    assert u3 == Ok(3) && store.users[3].name == "Usuario Nuevo";
    var again := store.CreateUser("Usuario Nuevo", "nuevo@test.com", 0);
    assert again == Conflict(EmailRegistered);
  }

  /** Re-sending a user's own e-mail is not a clash; another user's is. */
  method UpdateUserScenario() {
    var store := Fixture();
    var same := store.UpdateUser(1, UserPatch(Some("Nombre Nuevo"), Some("usuario1@test.com")));
    assert same.Ok? && same.value == User("Nombre Nuevo", "usuario1@test.com", 0);
    assert store.users[2].email == "usuario2@test.com" && "usuario2@test.com"[7] != store.users[1].email[7];
    var taken := store.UpdateUser(1, UserPatch(None, Some("usuario2@test.com")));
    assert taken == Conflict(EmailRegistered);
  }

  /** Searching by genre finds the one rock song. */
  method SearchScenario() {
    var store := Fixture();
    var q := SongQuery(None, None, Some("Rock"));
    assert SongMatches(store.songs[1], q);
    assert !SongMatches(store.songs[2], q) by {
      assert store.songs[2].genre.value[0] != q.genre.value[0];
    }
    var rock := store.Search(q);
    assert forall k :: 0 <= k < |rock| ==> rock[k].id == 1;
    assert |rock| == 1 && rock[0].record.title == "Canción Test 1";
  }

  /** The first user's favorites list that song; a pair cannot be marked
      twice, and once unmarked it can be marked again. */
  method FavoritesScenario() {
    var store := Fixture();
    var listing := store.UserFavorites(1);
    var songs := listing.value.songs;
    assert forall k :: 0 <= k < |songs| ==> songs[k].id == 1;
    assert |songs| == 1 && songs[0].title == "Canción Test 1";

    assert store.favorites[1] == Favorite(1, 1, 0);
    var twice := store.MarkFavorite(1, 1, 0);
    assert twice == Conflict(AlreadyFavorite);
    assert store.favorites[1] == Favorite(1, 1, 0);
    assert PairTaken(store.favorites, 1, 1);
    var removed := store.UnmarkFavorite(1, 1);
    assert removed.Ok?;
    var remarked := store.MarkFavorite(1, 1, 0);
    assert remarked.Ok?;
  }
}
