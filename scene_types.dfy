/** The values the scene store keeps: entries of the object list, the renderables
    they own, and the transform mode of the manipulation gizmo. */
module SceneTypes {

  /** Object ids are the strings `crypto.randomUUID()` produces. */
  type Id = string

  datatype Option<T> = None | Some(value: T)

  /** What kind of THREE.js node a renderable is; the store only ever asks
      whether it is a group. */
  datatype Kind = Group | Mesh | Other

  /** A handle on a renderable THREE.js node. The store compares renderables by
      reference (`===`), which the model reads as equality of handles; two
      distinct nodes never share a `ref`. */
  datatype Renderable = Renderable(ref: nat, kind: Kind)

  /** One entry of the scene's object list. */
  datatype Entry = Entry(id: Id, obj: Renderable, name: string, visible: bool, parentId: Option<Id>)

  /** The manipulation the gizmo performs. */
  datatype TransformMode = Translate | Rotate | Scale
}
