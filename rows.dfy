/** The rows of the soundboard's relational store, shared by the Flask and the
    Express back ends. Every table keyed by an auto-increment id is a map from
    that id to its row; the `linked` table is a sequence of rows in table order,
    because the source looks its rows up by (user, uploaded) and takes the
    first match. */
module Rows {

  datatype Option<+T> = None | Some(value: T)

  /** HTTP status codes the handlers answer with. */
  const OK: int := 200
  const CREATED: int := 201
  const BAD_REQUEST: int := 400
  const UNAUTHORIZED: int := 401
  const FORBIDDEN: int := 403
  const NOT_FOUND: int := 404
  const SERVER_ERROR: int := 500

  /** The `type` column of a File row. */
  datatype Kind = Image | Sound

  /** A `user` row; `passwordHash` is the opaque bcrypt hash. */
  datatype User = User(username: string, passwordHash: string, btnSize: int, isAdmin: bool)

  /** A `file` row: one stored asset. */
  datatype FileRow = FileRow(filename: string, kind: Kind)

  /** An `uploaded` row: a button pairing an image and an optional sound. */
  datatype Button = Button(imageId: nat, soundId: Option<nat>, uploadedBy: nat,
                           name: string, categoryId: Option<nat>)

  /** A `linked` row: it places `uploaded` at position `tri` in `user`'s board. */
  datatype Link = Link(user: nat, uploaded: nat, tri: int)

  /** A `category` row. */
  datatype Category = Category(name: string, color: Option<string>)

  /** The `status` column of a `deleted_button` row. */
  datatype Status = Deleted | Restored

  /** A `deleted_button` row. The Flask variant fills only owner, name,
      filenames, status and date; the Express variant also records the
      uploaded, image and sound ids. */
  datatype HistoryRow = HistoryRow(owner: nat, uploadedId: Option<nat>, name: string,
                                   imageFilename: Option<string>, soundFilename: Option<string>,
                                   imageId: Option<nat>, soundId: Option<nat>,
                                   status: Status, date: int)

  /** A `button_stats` row. */
  datatype PlayStats = PlayStats(playCount: nat, lastPlayed: Option<int>)

  /** A stored asset on disk: its folder and its file name. */
  datatype StoredPath = StoredPath(folder: string, filename: string)

  /** A snapshot of every table and of the asset store. */
  datatype Tables = Tables(
    users: map<nat, User>,
    files: map<nat, FileRow>,
    buttons: map<nat, Button>,
    links: seq<Link>,
    categories: map<nat, Category>,
    history: map<nat, HistoryRow>,
    favorites: set<(nat, nat)>,
    stats: map<nat, PlayStats>,
    disk: set<StoredPath>,
    nextId: nat)

  /** A handler's answer: its status code and the tables it leaves. */
  datatype Outcome = Outcome(status: int, t: Tables)

  /** One element of a `positions` list: `id` and `new_position`, either
      of which the client may leave out. */
  datatype PosItem = PosItem(id: Option<int>, newPosition: Option<int>)

  /** JavaScript truthiness of an optional string: present and non-empty. */
  predicate Truthy(s: Option<string>) {
    s.Some? && s.value != ""
  }
}
