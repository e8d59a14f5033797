/** The three tables of the music library: users, songs and favorites, keyed by
    their integer primary key, with the constraints the schema declares and the
    delete cascades from a user or a song to its favorites. */
module Models {
  import opened Options

  /** A clock reading (`datetime.utcnow()` at insert time), supplied by the caller. */
  type Timestamp = int

  /** A row of `usuario`: both `nombre` and `correo` are NOT NULL. */
  datatype User = User(name: string, email: string, registeredAt: Timestamp)

  /** A row of `cancion`: `titulo` and `artista` are NOT NULL, the rest may be NULL. */
  datatype Song = Song(
    title: string,
    artist: string,
    album: Option<string>,
    duration: Option<int>,
    year: Option<int>,
    genre: Option<string>,
    createdAt: Timestamp)

  /** A row of `favorito`, referring to a user and a song by id. */
  datatype Favorite = Favorite(userId: int, songId: int, markedAt: Timestamp)

  /** `correo` is declared `unique=True`. */
  predicate EmailsUnique(users: map<int, User>) {
    forall a, b :: a in users && b in users && users[a].email == users[b].email ==> a == b
  }

  /** The `uq_usuario_cancion` constraint on (`id_usuario`, `id_cancion`). */
  predicate PairsUnique(favorites: map<int, Favorite>) {
    forall a, b ::
      a in favorites && b in favorites &&
      favorites[a].userId == favorites[b].userId && favorites[a].songId == favorites[b].songId
      ==> a == b
  }

  /** Both foreign keys of every favorite point at a live row. */
  predicate ReferencesLive(users: map<int, User>, songs: map<int, Song>, favorites: map<int, Favorite>) {
    forall id :: id in favorites ==> favorites[id].userId in users && favorites[id].songId in songs
  }

  /** Every key of the table is a positive id handed out before `next`. */
  predicate KeysBelow<T>(table: map<int, T>, next: int) {
    forall id :: id in table ==> 1 <= id < next
  }

  /** Every constraint of the schema holds. */
  predicate Consistent(users: map<int, User>, songs: map<int, Song>, favorites: map<int, Favorite>) {
    && EmailsUnique(users)
    && PairsUnique(favorites)
    && ReferencesLive(users, songs, favorites)
  }

  predicate EmailTaken(users: map<int, User>, email: string) {
    exists id :: id in users && users[id].email == email
  }

  predicate PairTaken(favorites: map<int, Favorite>, userId: int, songId: int) {
    exists id :: id in favorites && favorites[id].userId == userId && favorites[id].songId == songId
  }

  /** The favorites left once the user is deleted: the user's relationship is
      declared with `cascade="all, delete-orphan"`. */
  function DropUserFavorites(favorites: map<int, Favorite>, userId: int): (r: map<int, Favorite>)
    ensures forall id :: id in r <==> id in favorites && favorites[id].userId != userId
    ensures forall id :: id in r ==> r[id] == favorites[id]
  {
    map id | id in favorites && favorites[id].userId != userId :: favorites[id]
  }

  /** The favorites left once the song is deleted, by the song's cascade. */
  function DropSongFavorites(favorites: map<int, Favorite>, songId: int): (r: map<int, Favorite>)
    ensures forall id :: id in r <==> id in favorites && favorites[id].songId != songId
    ensures forall id :: id in r ==> r[id] == favorites[id]
  {
    map id | id in favorites && favorites[id].songId != songId :: favorites[id]
  }

  /** Deleting a user together with its cascaded favorites keeps every constraint. */
  lemma DeleteUserKeepsConsistent(users: map<int, User>, songs: map<int, Song>, favorites: map<int, Favorite>, userId: int)
    requires Consistent(users, songs, favorites)
    ensures Consistent(users - {userId}, songs, DropUserFavorites(favorites, userId))
  {
  }

  /** Deleting a song together with its cascaded favorites keeps every constraint. */
  lemma DeleteSongKeepsConsistent(users: map<int, User>, songs: map<int, Song>, favorites: map<int, Favorite>, songId: int)
    requires Consistent(users, songs, favorites)
    ensures Consistent(users, songs - {songId}, DropSongFavorites(favorites, songId))
  {
  }
}
