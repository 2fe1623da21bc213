/** The errors the workspace and conference-room catalogs report. */
module CatalogErrors {

  /** Why a catalog operation was refused. */
  datatype CatalogError =
    | NotExist(id: int)   // lookup: "<kind> with id <id> not exist"
    | AlreadyExists       // create: "<kind> already exists"
    | DoesNotExist        // update and delete: "<kind> does not exist"
}
