/**
 * The persistent entities whose fields the services update in place: users, films and genres.
 *
 * The entities compare by id (Lombok's @EqualsAndHashCode(of = "id")), so a Java Set<Film> or
 * Set<User> behaves as a set of ids; the association fields below hold ids for that reason.
 */
module Entities {
  import opened Errors
  import opened Rating

  type UserId = int
  type FilmId = int
  type GenreId = int
  type MpaId = int

  /** A reading of the clock (Instant.now()); the clock itself is a parameter of the operations. */
  type Instant = int

  datatype Role = UserRole | AdminRole

  /** A LocalDate; only its year takes part in any rule here. */
  datatype Date = Date(year: int, month: int, day: int)

  /** An MPA age rating: its id and its name (such as "PG-13"). */
  datatype Mpa = Mpa(id: MpaId, name: string)

  class User {
    const id: UserId
    var login: string
    var email: string
    var name: string
    var password: string
    var birthday: Option<Date>
    var enabled: bool
    var roles: set<Role>
    var likedFilms: set<FilmId>

    /** A user as the mapping from the creation request builds it: enabled, with no likes yet. */
    constructor (id: UserId, login: string, email: string, name: string, password: string,
                 birthday: Option<Date>, roles: set<Role>)
      ensures this.id == id && this.login == login && this.email == email && this.name == name
      ensures this.password == password && this.birthday == birthday && this.roles == roles
      ensures enabled && likedFilms == {}
    {
      this.id := id;
      this.login := login;
      this.email := email;
      this.name := name;
      this.password := password;
      this.birthday := birthday;
      this.roles := roles;
      enabled := true;
      likedFilms := {};
    }

    /** Both sides of the like association gain the pair; a second like changes nothing. */
    method LikeFilm(film: Film)
      modifies this`likedFilms, film`likedBy
      ensures likedFilms == old(likedFilms) + {film.id}
      ensures film.likedBy == old(film.likedBy) + {id}
    {
      likedFilms := likedFilms + {film.id};
      film.likedBy := film.likedBy + {id};
    }

    /** Both sides of the like association lose the pair; every other like stays. */
    method UnlikeFilm(film: Film)
      modifies this`likedFilms, film`likedBy
      ensures likedFilms == old(likedFilms) - {film.id}
      ensures film.likedBy == old(film.likedBy) - {id}
    {
      likedFilms := likedFilms - {film.id};
      film.likedBy := film.likedBy - {id};
    }

    /** ADMIN is added to whatever roles the user already holds. */
    method MakeAdmin()
      modifies this`roles
      ensures roles == old(roles) + {AdminRole}
    {
      roles := roles + {AdminRole};
    }

    /** The roles become exactly {USER}, dropping ADMIN if it was there. */
    method MakeUser()
      modifies this`roles
      ensures roles == {UserRole}
    {
      roles := {UserRole};
    }

    method SetEnabled(enabled: bool)
      modifies this`enabled
      ensures this.enabled == enabled
    {
      this.enabled := enabled;
    }
  }

  class Film {
    const id: FilmId
    var name: string
    var description: Option<string>
    var releaseDate: Option<Date>
    /** The average review rating in tenths; absent while the film has no reviews. */
    var rating: Option<Tenths>
    var duration: Option<int>
    var likedBy: set<UserId>
    var genres: set<GenreId>
    var mpa: Option<Mpa>

    constructor (id: FilmId, name: string, description: Option<string>, releaseDate: Option<Date>,
                 duration: Option<int>, mpa: Option<Mpa>)
      ensures this.id == id && this.name == name && this.description == description
      ensures this.releaseDate == releaseDate && this.duration == duration && this.mpa == mpa
      ensures rating == None && likedBy == {} && genres == {}
    {
      this.id := id;
      this.name := name;
      this.description := description;
      this.releaseDate := releaseDate;
      this.duration := duration;
      this.mpa := mpa;
      rating := None;
      likedBy := {};
      genres := {};
    }

    /**
     * The film's genres become exactly the given ones, and each given genre then lists this
     * film. Genres that are not given are not touched: the film stays in their film sets.
     */
    method SetGenres(gs: seq<Genre>)
      modifies this`genres, gs
      ensures genres == set g | g in gs :: g.id
      ensures forall g :: g in gs ==> g.films == old(g.films) + {id}
    {
      genres := set g | g in gs :: g.id;
      var i := 0;
      while i < |gs|
        invariant 0 <= i <= |gs|
        invariant genres == set g | g in gs :: g.id
        invariant forall g :: g in gs ==> g.films == old(g.films) + (if g in gs[..i] then {id} else {})
      {
        gs[i].AddFilm(this);
        assert gs[..i + 1] == gs[..i] + [gs[i]];
        i := i + 1;
      }
      assert gs[..i] == gs;
    }
  }

  class Genre {
    const id: GenreId
    const name: string
    var films: set<FilmId>

    constructor (id: GenreId, name: string)
      ensures this.id == id && this.name == name && films == {}
    {
      this.id := id;
      this.name := name;
      films := {};
    }

    /** The film joins the genre's films; those already there stay, and adding twice changes nothing. */
    method AddFilm(film: Film)
      modifies this`films
      ensures films == old(films) + {film.id}
    {
      films := films + {film.id};
    }
  }
}
