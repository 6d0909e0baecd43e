/** The two stored record kinds of the recommendation backend (the Mongoose
    schemas for movies and interactions), as immutable values. */
module Models {

  datatype Option<+T> = None | Some(value: T)

  /** Mongo object ids, compared through their string form. */
  type ObjectId = string

  /** A catalog movie. `id` is the document's `_id`; `number` is the schema's
      own numeric `id` field. Genres are a list; actors is one string whose
      names are separated by ", ". */
  datatype Movie = Movie(
    id: ObjectId,
    number: int,
    title: string,
    year: string,
    runtime: string,
    genres: seq<string>,
    director: string,
    actors: string,
    plot: string,
    posterUrl: string)

  /** One interaction record: a user, a movie, the kind of interaction and how
      often it happened. `timestamp` is the creation time, in the caller's clock. */
  datatype Interaction = Interaction(
    userId: ObjectId,
    movieId: ObjectId,
    interactionType: string,
    interactionCount: int,
    timestamp: int)

  const SeeMore: string := "see_more"
  const AddToWatch: string := "add_to_watch"
  const Dislike: string := "dislike"

  /** The values the interaction schema's enum admits. */
  predicate IsSchemaType(t: string) {
    t == Dislike || t == SeeMore || t == AddToWatch
  }

  /** JavaScript truthiness of an optional request string: present and non-empty. */
  predicate Truthy(s: Option<string>) {
    s.Some? && s.value != ""
  }

  function Ids(ms: seq<Movie>): (r: seq<ObjectId>)
    ensures |r| == |ms|
    ensures forall i :: 0 <= i < |ms| ==> r[i] == ms[i].id
  {
    seq(|ms|, i requires 0 <= i < |ms| => ms[i].id)
  }
}
