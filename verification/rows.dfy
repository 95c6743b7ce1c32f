/** The shapes of the flat rows the two read queries return. Every column a
    left join can leave empty is an `Option`. */
module Rows {
  import opened Common

  /** The history and service columns of a joined row. They double as the
      history object the routes put in their responses, which has exactly
      these five fields. */
  datatype HistoryCols = HistoryCols(
    historialId: Option<string>,
    servicioId: Option<int>,
    fecha: Option<Timestamp>,
    servicioName: Option<string>,
    servicioDescription: Option<string>)

  /** The history columns of a plant the outer join found no history for. */
  const NullHistory := HistoryCols(None, None, None, None, None)

  /** A row of `usuarios LEFT JOIN plantas LEFT JOIN historiales LEFT JOIN servicios`. */
  datatype JoinRow = JoinRow(
    userId: string,
    userName: string,
    userEmail: string,
    plantaId: Option<string>,
    plantaName: Option<string>,
    hist: HistoryCols)

  /** A row of the plant query: one plant, outer-joined with its history and services. */
  datatype PlantRow = PlantRow(plantaId: string, plantaName: string, hist: HistoryCols)
}
