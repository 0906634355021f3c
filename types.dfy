/** The front end's state and actions (services/front/src/reducers/types.ts)
    and the tree the API returns (services/front/src/api.ts). */
module Types {
  import opened Wrappers

  /** A node of the tree fetched from `GET /api/directories`. */
  datatype ApiNode = ApiNode(id: int, name: string, subs: seq<ApiNode>)

  /** The local edit state of one node: `regular`, `rename` (with the draft
      name the user is typing) or `delete`. */
  datatype Status =
    | Regular
    | Renaming(name: string, waitingForServer: bool, anErrorOccurred: bool)
    | Deleting(waitingForServer: bool, anErrorOccurred: bool)

  /** A node of the state tree. The root's id is NaN, here `None`; every other
      node has a number. */
  datatype Node = Node(id: Option<int>, name: string, status: Status, subs: seq<Node>)

  /** An entry of the parent picker of the directory creator (`label` in the
      source; `label` is a Dafny keyword). */
  datatype Parent = Parent(text: string, id: int)

  /** The draft of the "new directory" form. */
  datatype Creator = Creator(
    waitingForServer: bool,
    anErrorOccurred: bool,
    name: string,
    parentValue: Option<Parent>,
    parentInputValue: string,
    parentOptions: seq<Parent>)

  /** The payload of a failed initial fetch; the reducers never look into it. */
  type FetchError(==)

  datatype State =
    | Loading
    | Success(maxId: int, directoryCreator: Creator, rootDirectory: Node)
    | Error(error: FetchError)

  /** Every action the reducers know. The `User...` actions come from the
      push channel (INSERT, UPDATE and DELETE messages); the others from the
      user interface and from the outcome of HTTP requests. */
  datatype Action =
    | SucceedInitialFetch(node: ApiNode)
    | FailedInitialFetch(error: FetchError)
    // directory creator
    | UpdateNameOfDirectoryCreator(name: string)
    | UpdateParentInputValueOfDirectoryCreator(parentInputValue: string)
    | UpdateParentValueOfDirectoryCreator(parentValue: Option<Parent>)
    | TryToPostNewDirectory
    | SucceedToPostNewDirectory(id: int, name: string, parentId: Option<int>)
    | FailedToPostNewDirectory
    // directory nodes (`cancelDirectioryNameEdition` in the source)
    | StartToEditDirectoryName(id: int)
    | CancelDirectoryNameEdition(id: int)
    | UpdateTemporaryNewNameOfDirectory(id: int, name: string)
    | TryToPutNewDirectoryName(id: int)
    | SucceedToPutNewDirectoryName(id: int, name: string)
    | FailedToPutNewDirectoryName(id: int)
    | StartToDeleteDirectoryNode(id: int)
    | CancelDirectoryNodeDeletion(id: int)
    | TryToDeleteDirectoryAndSubdirectories(id: int)
    | SucceedToDeleteDirectoryAndSubdirectories(id: int)
    | FailedToDeleteDirectoryAndSubdirectories(id: int)
    // push channel
    | UserRenameDirectory(id: int, name: string)
    | UserDeleteDirectory(id: int)
    | UserCreateDirectory(id: int, name: string, parentId: Option<int>)
}
